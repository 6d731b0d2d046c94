/** Serializing an HNSW index to its canonical region, and rebuilding one from a region. */
module HnswPersist {
  import opened Ordering
  import opened Identifiers
  import opened Vectors
  import opened Errors
  import opened SnapshotFormat
  import opened HnswGraph
  import opened HnswModel
  import opened HnswCanonical
  import opened HnswFormat
  import opened HnswReload
  import opened Hnsw

  function HeaderOf(p: Params): RawHeader { RawHeader(p.m, p.efConstruction, p.seed) }

  /** The parameters of a loaded index: the constructor clamps m and ef_construction. */
  function ParamsOf(h: RawHeader, dimensionality: nat, metric: Metric): Params {
    Params(dimensionality, metric, if h.m < 2 then 2 else h.m, if h.efConstruction < 1 then 1 else h.efConstruction,
           h.seed)
  }

  /** The index region of a graph. */
  function Region(p: Params, g: Graph): Bytes { RegionBytes(HeaderOf(p), Canonical(g.nodes)) }

  /** The parameters and the canonical graph fit their fixed-width fields. */
  ghost predicate Storable(p: Params, g: Graph) { FitsHeader(HeaderOf(p)) && FitsGraph(Canonical(g.nodes)) }

  /** Parameters, node count, identifiers and levels are in range. */
  ghost predicate Bounded(p: Params, g: Graph) {
    && p.m < TWO32 && p.efConstruction < TWO32 && p.seed < TWO64 && |g.nodes| < TWO32
    && forall i | 0 <= i < |g.nodes| :: |g.nodes[i].id| < TWO32 && g.nodes[i].topLayer < 0x8000_0000
  }

  /** A well-formed index with everything in range fits the format. */
  lemma CanonicalFits(p: Params, g: Graph)
    requires WellFormed(g, p) && Bounded(p, g)
    ensures Storable(p, g)
  {
    hide WellFormed, Canonical, LiveOrder, FitsNode;
    var order, raw := LiveOrder(g.nodes), Canonical(g.nodes);
    CanonicalCount(g.nodes);
    OrderShort(g.nodes);
    forall n | n in raw.nodes ensures FitsNode(n, |raw.nodes|) {
      var c :| 0 <= c < |raw.nodes| && raw.nodes[c] == n;
      CanonicalNodeFits(p, g, c);
    }
    EntryFits(g.nodes);
  }

  lemma OrderShort(nodes: Nodes)
    ensures |LiveOrder(nodes)| <= |nodes|
  {
    var order := LiveOrder(nodes);
    forall x | x in order ensures x < |nodes| { assert x in LiveNodes(nodes); }
    Pigeonhole(order, |nodes|);
  }

  lemma EntryFits(nodes: Nodes)
    requires forall n | n in Canonical(nodes).nodes :: FitsNode(n, |Canonical(nodes).nodes|)
    requires |Canonical(nodes).nodes| < TWO32
    ensures -1 <= Canonical(nodes).maxLevel < 0x8000_0000 && Canonical(nodes).entry < TWO32
  {
    var raw := Canonical(nodes);
    assert |Tops(raw.nodes)| == |raw.nodes| && (raw.entry, raw.maxLevel) == Highest(Tops(raw.nodes));
    hide Highest, Canonical;
    if raw.nodes != [] {
      assert raw.maxLevel == raw.nodes[raw.entry].topLayer && raw.nodes[raw.entry] in raw.nodes;
    }
  }

  lemma CanonicalListFits(p: Params, nodes: Nodes, order: seq<nat>, x: nat, k: nat)
    requires Linked(nodes, p) && p.m < TWO32 && Distinct(order) && x < |nodes| && k < |nodes[x].neighbors|
    ensures FitsList(CanonicalList(order, nodes[x].neighbors[k]), |order|)
  {
    var list := nodes[x].neighbors[k];
    assert GoodNode(nodes, p, x);
    assert GoodList(nodes, p, x, k, list);
    CanonicalListShort(order, list);
    hide CanonicalList;
    forall e | e in CanonicalList(order, list) ensures e < |order| { RenamedMembers(order, list, e); }
  }

  lemma CanonicalCount(nodes: Nodes)
    ensures |Canonical(nodes).nodes| == |LiveOrder(nodes)|
  {
  }

  lemma NodeShape(p: Params, nodes: Nodes, x: nat)
    requires Linked(nodes, p) && x < |nodes|
    ensures |nodes[x].neighbors| == nodes[x].topLayer + 1
  {
  }

  lemma CanonicalNodeFits(p: Params, g: Graph, c: nat)
    requires WellFormed(g, p) && Bounded(p, g) && c < |Canonical(g.nodes).nodes|
    ensures FitsNode(Canonical(g.nodes).nodes[c], |Canonical(g.nodes).nodes|)
  {
    CanonicalCount(g.nodes);
    hide Canonical, LiveOrder, Linked, Named, Topped, CanonicalList, FitsList, LiveNodes;
    var order, n := LiveOrder(g.nodes), Canonical(g.nodes).nodes[c];
    CanonicalNodeAt(g.nodes, c);
    var x := order[c];
    NodeShape(p, g.nodes, x);
    assert |n.neighbors| == |g.nodes[x].neighbors|;
    assert forall k | 0 <= k < |n.neighbors| :: n.neighbors[k] == CanonicalList(order, g.nodes[x].neighbors[k]);
    hide CanonicalNode;
    forall k | 0 <= k < |n.neighbors| ensures FitsList(n.neighbors[k], |order|) {
      CanonicalListFits(p, g.nodes, order, x, k);
    }
  }

  // ---------------------------------------------------------------- the whole round trip

  /** What a region yields with the given record vectors: None when it is rejected. */
  ghost predicate Loads(region: Bytes, vectors: map<RecordId, Vector>) {
    match ReadRegion(region)
    case None => false
    case Some(hg) =>
      && (forall i | 0 <= i < |hg.1.nodes| :: hg.1.nodes[i].id in vectors)
      && DistinctIds(hg.1.nodes)
      && (hg.1.nodes == [] || hg.1.entry < |hg.1.nodes|)
  }

  /** Loading the serialized region of a well-formed index succeeds; the loaded graph satisfies the
      invariant, stores the same records, and serializes to the same bytes. */
  lemma SerializedReloads(p: Params, g: Graph, vectors: map<RecordId, Vector>)
    requires WellFormed(g, p) && Storable(p, g) && Supplies(vectors, g)
    ensures Loads(Region(p, g), vectors)
    ensures ReadRegion(Region(p, g)) == Some((HeaderOf(p), Canonical(g.nodes)))
    ensures var r := Build(ReadRegion(Region(p, g)).value.1, vectors);
      WellFormed(r, p) && Contents(r) == Contents(g) && Induced(g.nodes, LiveOrder(g.nodes), r.nodes)
      && Region(p, r) == Region(p, g)
  {
    hide Canonical, Build, WellFormed, Storable, Supplies, ReadRegion, Region, Loads, Induced, LiveOrder, Contents;
    SerializedLoads(p, g, vectors);
    ReloadWellFormed(p, g, vectors);
    ReloadInduced(p, g, vectors);
    ReloadSameRegion(p, g, vectors);
  }

  /** The region of a well-formed index is accepted and read as the header and the canonical graph. */
  lemma SerializedLoads(p: Params, g: Graph, vectors: map<RecordId, Vector>)
    requires WellFormed(g, p) && Storable(p, g) && Supplies(vectors, g)
    ensures Loads(Region(p, g), vectors) && ReadRegion(Region(p, g)) == Some((HeaderOf(p), Canonical(g.nodes)))
  {
    hide Canonical, WellFormed, Supplies, ReadRegion, RegionBytes, DistinctIds, FitsHeader, FitsGraph;
    RegionRoundTrip(HeaderOf(p), Canonical(g.nodes));
    Reloadable(p, g, vectors);
    CanonicalIdsDistinct(p, g);
    EntryInRange(g);
  }

  lemma ReloadSameRegion(p: Params, g: Graph, vectors: map<RecordId, Vector>)
    requires WellFormed(g, p) && Supplies(vectors, g)
    requires forall i | 0 <= i < |Canonical(g.nodes).nodes| :: Canonical(g.nodes).nodes[i].id in vectors
    ensures Region(p, Build(Canonical(g.nodes), vectors)) == Region(p, g)
  {
    hide Canonical, Build, WellFormed, Supplies, RegionBytes;
    ReloadFixed(p, g, vectors);
  }

  lemma EntryInRange(g: Graph)
    ensures Canonical(g.nodes).nodes == [] || Canonical(g.nodes).entry < |Canonical(g.nodes).nodes|
  {
    assert |Tops(Canonical(g.nodes).nodes)| == |Canonical(g.nodes).nodes|;
  }

  // ---------------------------------------------------------------- serialize

  /** The live internal ids sorted by identifier. */
  method SortLive(index: HnswIndex) returns (order: seq<nat>)
    ensures order == LiveOrder(index.nodes)
  {
    var nodes := index.nodes;
    var live: seq<nat> := [];
    for i := 0 to |nodes|
      invariant forall x: nat :: x in live <==> x < i && !nodes[x].deleted
      invariant forall j | 0 <= j < |live| :: live[j] < i
      invariant forall j, k | 0 <= j < k < |live| :: live[j] < live[k]
    {
      if !nodes[i].deleted {
        live := live + [i];
      }
    }
    ByIdOrder(nodes);
    order := Sort(live, ById(nodes));
    assert Distinct(live);
    SortDistinct<nat>(live, ById(nodes));
    SortMembers<nat>(live, ById(nodes));
    EnumerationUnique<nat>(order, Enumerate<nat>(LiveNodes(nodes), ById(nodes)), ById(nodes));
  }

  /** internal id -> canonical id, for live nodes only. */
  method NumberLive(order: seq<nat>) returns (canonical: map<nat, nat>)
    requires Distinct(order)
    ensures canonical.Keys == Elements(order)
    ensures forall x | x in order :: canonical[x] == Rank(order, x)
  {
    canonical := map[];
    for c := 0 to |order|
      invariant canonical.Keys == Elements(order[..c])
      invariant forall x | x in canonical :: x in order && canonical[x] == Rank(order, x)
    {
      RankOf(order, c);
      assert order[..c + 1] == order[..c] + [order[c]];
      canonical := canonical[order[c] := c];
    }
    assert order[..|order|] == order;
  }

  /** std::unique on a sorted list. */
  method Unique(s: seq<nat>) returns (r: seq<nat>)
    requires forall i, j | 0 <= i < j < |s| :: s[i] <= s[j]
    ensures Ascending<nat>(r, NatLess) && forall x :: x in r <==> x in s
  {
    r := [];
    for i := 0 to |s|
      invariant forall j, k | 0 <= j < k < |r| :: r[j] < r[k]
      invariant forall x :: x in r <==> x in s[..i]
      invariant r != [] ==> i > 0 && r[|r| - 1] == s[i - 1]
      invariant i > 0 ==> r != []
    {
      assert s[..i + 1] == s[..i] + [s[i]];
      if r == [] || r[|r| - 1] != s[i] {
        r := r + [s[i]];
      }
    }
    assert s[..|s|] == s;
  }

  /** The canonical form of one neighbour list. */
  method Remap(list: seq<nat>, canonical: map<nat, nat>, ghost order: seq<nat>) returns (remapped: seq<nat>)
    requires canonical.Keys == Elements(order) && forall x | x in order :: canonical[x] == Rank(order, x)
    ensures remapped == CanonicalList(order, list)
  {
    var ids: seq<nat> := [];
    for i := 0 to |list|
      invariant forall e :: e in ids <==> exists x :: x in list[..i] && x in order && Rank(order, x) == e
    {
      assert list[..i + 1] == list[..i] + [list[i]];
      assert list[i] in canonical <==> list[i] in order;
      if list[i] in canonical {
        ids := ids + [canonical[list[i]]];
      }
    }
    assert list[..|list|] == list;
    NatOrder();
    var sorted := Sort<nat>(ids, NatLess);
    SortMembers<nat>(ids, NatLess);
    assert forall i, j | 0 <= i < j < |sorted| :: !NatLess(sorted[j], sorted[i]);
    remapped := Unique(sorted);
    forall e: nat ensures e in remapped <==> e in Renamed(order, list) {
    }
    EnumerationUnique<nat>(remapped, Enumerate<nat>(Renamed(order, list), NatLess), NatLess);
  }

  /** Appends one node record. */
  method WriteNode(w: ByteWriter, node: Node, canonical: map<nat, nat>, ghost order: seq<nat>)
    requires canonical.Keys == Elements(order) && forall x | x in order :: canonical[x] == Rank(order, x)
    requires |node.id| < TWO32 && node.topLayer < 0x8000_0000
    requires forall l | l in CanonicalNode(order, node).neighbors :: |l| < TWO32
    modifies w
    ensures w.buffer == old(w.buffer) + NodeBytes(CanonicalNode(order, node))
  {
    hide LayersBytes, LE;
    w.PutString(node.id);
    w.PutU32(node.topLayer);
    ghost var start := w.buffer;
    WriteLayers(w, node, canonical, order);
    ghost var raw := CanonicalNode(order, node);
    assert NodeBytes(raw) == StringBytes(node.id) + U32Bytes(node.topLayer) + LayersBytes(raw.neighbors);
  }

  /** Appends the layers 0..topLayer of a node, each with its canonical list. */
  method WriteLayers(w: ByteWriter, node: Node, canonical: map<nat, nat>, ghost order: seq<nat>)
    requires canonical.Keys == Elements(order) && forall x | x in order :: canonical[x] == Rank(order, x)
    requires forall l | l in CanonicalNode(order, node).neighbors :: |l| < TWO32
    modifies w
    ensures w.buffer == old(w.buffer) + LayersBytes(CanonicalNode(order, node).neighbors)
  {
    hide CanonicalNode, ListBytes, LE, Rank, LayersBytes, CanonicalList, Elements;
    ghost var lists := CanonicalNode(order, node).neighbors;
    ghost var start := w.buffer;
    var layer := 0;
    EmptyLayers(lists[..0]);
    CanonicalLayers(order, node);
    while layer <= node.topLayer
      invariant layer <= node.topLayer + 1
      invariant w.buffer == start + LayersBytes(lists[..layer])
    {
      var remapped := [];
      if layer < |node.neighbors| {
        remapped := Remap(node.neighbors[layer], canonical, order);
      }
      assert remapped == lists[layer] && lists[layer] in lists;
      LayerAppended(lists, layer);
      WriteList(w, remapped);
      layer := layer + 1;
    }
    assert lists[..layer] == lists;
  }

  /** The canonical lists of a node, layer by layer. */
  lemma CanonicalLayers(order: seq<nat>, node: Node)
    ensures var lists := CanonicalNode(order, node).neighbors;
      |lists| == node.topLayer + 1 && forall l | 0 <= l < |lists| ::
        lists[l] == if l < |node.neighbors| then CanonicalList(order, node.neighbors[l]) else []
  {
    hide CanonicalList;
  }

  lemma LayerAppended(lists: seq<seq<nat>>, layer: nat)
    requires layer < |lists|
    ensures LayersBytes(lists[..layer + 1])
            == LayersBytes(lists[..layer]) + LE(|lists[layer]|, 4) + ListBytes(lists[layer])
  {
    hide LE, ListBytes;
    assert lists[..layer + 1] == lists[..layer] + [lists[layer]];
    LayersBytesSnoc(lists[..layer], lists[layer]);
  }

  lemma EmptyLayers(none: seq<seq<nat>>)
    requires none == []
    ensures LayersBytes(none) == []
  {
  }

  method WriteList(w: ByteWriter, list: seq<nat>)
    requires |list| < TWO32
    modifies w
    ensures w.buffer == old(w.buffer) + LE(|list|, 4) + ListBytes(list)
  {
    hide LE;
    w.PutU32(|list|);
    ghost var start := w.buffer;
    for i := 0 to |list|
      invariant w.buffer == start + ListBytes(list[..i])
    {
      assert list[..i + 1] == list[..i] + [list[i]];
      ListBytesSnoc(list[..i], list[i]);
      w.PutInt(list[i], 4);
      Assoc(start, ListBytes(list[..i]), LE(list[i], 4));
    }
    assert list[..|list|] == list;
  }

  function TopsOf(nodes: Nodes, order: seq<nat>): seq<nat>
    requires forall x | x in order :: x < |nodes|
  {
    seq<nat>(|order|, c requires 0 <= c < |order| => (assert order[c] in order; nodes[order[c]].topLayer))
  }

  /** The live node of the highest top layer, the smallest identifier among equals. */
  method FindEntry(nodes: Nodes, order: seq<nat>) returns (entry: nat, maxLevel: int)
    requires forall x | x in order :: x < |nodes|
    ensures (entry, maxLevel) == Highest(TopsOf(nodes, order))
  {
    ghost var tops := TopsOf(nodes, order);
    entry, maxLevel := NONE, -1;
    for c := 0 to |order|
      invariant (entry, maxLevel) == Highest(tops[..c])
    {
      assert order[c] in order && tops[..c + 1][..c] == tops[..c];
      var top := nodes[order[c]].topLayer;
      if top > maxLevel {
        entry, maxLevel := c, top;
      }
    }
    assert tops[..|tops|] == tops;
  }

  /** Writes the canonical region of the index. */
  method Serialize(index: HnswIndex) returns (bytes: Bytes)
    requires Storable(index.P(), index.G())
    ensures bytes == Region(index.P(), index.G())
  {
    var order := SortLive(index);
    var canonical := NumberLive(order);
    var w := WriteHead(index, order);
    hide Canonical, WellFormed, Storable, Rank;
    WriteNodes(w, index, order, canonical);
    bytes := w.buffer;
  }

  /** The fixed fields in front of the nodes. */
  method WriteHead(index: HnswIndex, order: seq<nat>) returns (w: ByteWriter)
    requires Storable(index.P(), index.G()) && order == LiveOrder(index.nodes)
    ensures fresh(w) && |Canonical(index.nodes).nodes| == |order|
    ensures var raw := Canonical(index.nodes);
      w.buffer == LE(index.m, 4) + LE(index.efConstruction, 4) + LE(index.seed, 8)
                  + LE(|raw.nodes|, 4) + LE(ToU32(raw.maxLevel), 4) + LE(raw.entry, 4)
  {
    CanonicalCount(index.nodes);
    forall x | x in order ensures x < |index.nodes| { assert x in LiveNodes(index.nodes); }
    var entry, maxLevel := FindEntry(index.nodes, order);
    EntryMatches(index.nodes, order, entry, maxLevel);
    hide Canonical, LE, LiveOrder, WellFormed;
    w := new ByteWriter();
    WriteFixed(w, index, |order|, maxLevel, entry);
  }

  /** Appends every live node in canonical order. */
  method WriteNodes(w: ByteWriter, index: HnswIndex, order: seq<nat>, canonical: map<nat, nat>)
    requires Storable(index.P(), index.G()) && order == LiveOrder(index.nodes)
    requires |Canonical(index.nodes).nodes| == |order|
    requires canonical.Keys == Elements(order) && forall x | x in order :: canonical[x] == Rank(order, x)
    modifies w
    ensures w.buffer == old(w.buffer) + NodesBytes(Canonical(index.nodes).nodes)
  {
    hide Canonical, WellFormed, Storable, LiveOrder, Rank, NodeBytes;
    ghost var raws := Canonical(index.nodes).nodes;
    ghost var start := w.buffer;
    for c := 0 to |order|
      invariant w.buffer == start + NodesBytes(raws[..c])
    {
      WriteOne(w, index, order, canonical, c);
      assert raws[..c + 1] == raws[..c] + [raws[c]];
      NodesBytesSnoc(raws[..c], raws[c]);
    }
    assert raws[..|order|] == raws;
  }

  lemma EntryMatches(nodes: Nodes, order: seq<nat>, entry: nat, maxLevel: int)
    requires order == LiveOrder(nodes) && forall x | x in order :: x < |nodes|
    requires (entry, maxLevel) == Highest(TopsOf(nodes, order))
    ensures entry == Canonical(nodes).entry && maxLevel == Canonical(nodes).maxLevel
    ensures |Canonical(nodes).nodes| == |order|
  {
    CanonicalCount(nodes);
    assert (Canonical(nodes).entry, Canonical(nodes).maxLevel) == Highest(Tops(Canonical(nodes).nodes));
    hide Highest, LiveOrder, Canonical;
    var raws := Canonical(nodes).nodes;
    forall c | 0 <= c < |order| ensures order[c] < |nodes| { assert order[c] in order; }
    forall c | 0 <= c < |order| ensures raws[c].topLayer == nodes[order[c]].topLayer {
      CanonicalNodeAt(nodes, c);
    }
    assert Tops(raws) == TopsOf(nodes, order);
  }

  method WriteFixed(w: ByteWriter, index: HnswIndex, count: U32, maxLevel: int, entry: U32)
    requires index.m < TWO32 && index.efConstruction < TWO32 && index.seed < TWO64 && w.buffer == []
    modifies w
    ensures w.buffer == LE(index.m, 4) + LE(index.efConstruction, 4) + LE(index.seed, 8)
                        + LE(count, 4) + LE(ToU32(maxLevel), 4) + LE(entry, 4)
  {
    hide LE;
    w.PutU32(index.m);
    w.PutU32(index.efConstruction);
    w.PutU64(index.seed);
    w.PutU32(count);
    w.PutU32(ToU32(maxLevel));
    w.PutU32(entry);
  }

  method WriteOne(w: ByteWriter, index: HnswIndex, order: seq<nat>, canonical: map<nat, nat>, c: nat)
    requires Storable(index.P(), index.G())
    requires order == LiveOrder(index.nodes) && c < |order|
    requires canonical.Keys == Elements(order) && forall x | x in order :: canonical[x] == Rank(order, x)
    modifies w
    ensures c < |Canonical(index.nodes).nodes|
    ensures w.buffer == old(w.buffer) + NodeBytes(Canonical(index.nodes).nodes[c])
  {
    hide Canonical, LiveOrder, Rank, Elements, NodeBytes, CanonicalNode;
    CanonicalNodeAt(index.nodes, c);
    CanonicalShape(order, index.nodes[order[c]]);
    assert Canonical(index.nodes).nodes[c] in Canonical(index.nodes).nodes;
    WriteNode(w, index.nodes[order[c]], canonical, order);
  }

  lemma CanonicalShape(order: seq<nat>, node: Node)
    ensures CanonicalNode(order, node).id == node.id && CanonicalNode(order, node).topLayer == node.topLayer
  {
  }

  // ---------------------------------------------------------------- deserialize

  /** Reads one adjacency list; false when a read overruns or a neighbour is out of range. */
  method ParseList(r: ByteReader, degree: nat, count: nat) returns (ok: bool, adj: seq<nat>)
    requires r.Valid() && r.ok
    modifies r
    ensures r.Valid() && ok == ReadList(old(r.Rest()), degree, count).Some?
    ensures ok ==> r.ok && ReadList(old(r.Rest()), degree, count) == Some((adj, r.Rest()))
  {
    adj := [];
    ghost var whole := ReadList(r.Rest(), degree, count);
    BehindNothing(whole);
    for e := 0 to degree
      invariant r.Valid() && r.ok
      invariant whole == Behind(adj, ReadList(r.Rest(), degree - e, count))
    {
      ghost var rest := r.Rest();
      var nb := r.GetU32();
      if !r.ok || nb >= count {
        return false, adj;
      }
      BehindTwice(adj, [nb], ReadList(r.Rest(), degree - e - 1, count));
      adj := adj + [nb];
    }
    NothingBehind(adj, r.Rest());
    ok := true;
  }

  /** Reads the adjacency of layers 0..layers-1. */
  method ParseLayers(r: ByteReader, layers: nat, count: nat) returns (ok: bool, neighbors: seq<seq<nat>>)
    requires r.Valid() && r.ok
    modifies r
    ensures r.Valid() && ok == ReadLayers(old(r.Rest()), layers, count).Some?
    ensures ok ==> r.ok && ReadLayers(old(r.Rest()), layers, count) == Some((neighbors, r.Rest()))
  {
    neighbors := [];
    ghost var whole := ReadLayers(r.Rest(), layers, count);
    BehindNothing(whole);
    for layer := 0 to layers
      invariant r.Valid() && r.ok
      invariant whole == Behind(neighbors, ReadLayers(r.Rest(), layers - layer, count))
    {
      ghost var rest := r.Rest();
      var degree := r.GetU32();
      if !r.ok {
        return false, neighbors;
      }
      var listOk, adj := ParseList(r, degree, count);
      if !listOk {
        return false, neighbors;
      }
      BehindTwice(neighbors, [adj], ReadLayers(r.Rest(), layers - layer - 1, count));
      neighbors := neighbors + [adj];
    }
    NothingBehind(neighbors, r.Rest());
    ok := true;
  }

  /** Reads one node; false when malformed or when the records have no vector for its id. */
  method ParseNode(r: ByteReader, count: nat, vectors: map<RecordId, Vector>) returns (ok: bool, raw: RawNode)
    requires r.Valid() && r.ok
    modifies r
    ensures r.Valid()
    ensures ok ==> r.ok && raw.id in vectors && ReadNode(old(r.Rest()), count) == Some((raw, r.Rest()))
    ensures !ok ==> match ReadNode(old(r.Rest()), count) { case Some(p) => p.0.id !in vectors case None => true }
  {
    hide ReadString, ReadInt, ReadLayers;
    raw := RawNode([], 0, []);
    var id := r.GetString();
    if !r.ok {
      return false, raw;
    }
    var top := r.GetU32();
    if !r.ok || ToInt32(top) < 0 {
      return false, raw;
    }
    if id !in vectors {
      return false, raw;
    }
    var layersOk, neighbors := ParseLayers(r, top + 1, count);
    if !layersOk {
      return false, raw;
    }
    return true, RawNode(id, top, neighbors);
  }

  /** A node that is malformed, without a vector, or a duplicate of an earlier one. */
  ghost predicate Refused(raws: seq<RawNode>, read: Read<RawNode>, vectors: map<RecordId, Vector>) {
    match read
    case None => true
    case Some(p) => p.0.id !in vectors || exists i | 0 <= i < |raws| :: raws[i].id == p.0.id
  }

  /** Some node of a list is unusable. */
  ghost predicate Unusable(read: Read<seq<RawNode>>, vectors: map<RecordId, Vector>) {
    match read
    case None => true
    case Some(p) => !DistinctIds(p.0) || exists i | 0 <= i < |p.0| :: p.0[i].id !in vectors
  }

  /** One refused node makes the whole list unusable. */
  lemma NodeRejects(raws: seq<RawNode>, rest: Bytes, left: nat, count: nat, vectors: map<RecordId, Vector>)
    requires left > 0 && Refused(raws, ReadNode(rest, count), vectors)
    ensures Unusable(Behind(raws, ReadNodes(rest, left, count)), vectors)
  {
    var all := Behind(raws, ReadNodes(rest, left, count));
    if all.Some? {
      var p := ReadNode(rest, count).value;
      assert all.value.0[|raws|] == p.0;
      if i :| 0 <= i < |raws| && raws[i].id == p.0.id {
        assert all.value.0[i] == raws[i];
      }
    }
  }

  function IdSet(raws: seq<RawNode>): set<RecordId> { set i | 0 <= i < |raws| :: raws[i].id }

  lemma IdSetSnoc(raws: seq<RawNode>, raw: RawNode, more: seq<RawNode>)
    requires more == raws + [raw]
    ensures IdSet(more) == IdSet(raws) + {raw.id}
  {
    assert more[|raws|] == raw;
    forall i | 0 <= i < |raws| ensures raws[i].id in IdSet(more) { assert more[i] == raws[i]; }
  }

  /** Reads every node of the region; false when some node is unusable. */
  method ParseNodes(r: ByteReader, count: nat, vectors: map<RecordId, Vector>) returns (ok: bool, raws: seq<RawNode>)
    requires r.Valid() && r.ok
    modifies r
    ensures r.Valid()
    ensures ok ==> r.ok && ReadNodes(old(r.Rest()), count, count) == Some((raws, r.Rest()))
    ensures ok ==> DistinctIds(raws) && forall i | 0 <= i < |raws| :: raws[i].id in vectors
    ensures !ok ==> Unusable(ReadNodes(old(r.Rest()), count, count), vectors)
  {
    hide ReadNodes, ReadNode, Behind, DistinctIds, IdSet, Unusable, Refused;
    raws := [];
    var seen: set<RecordId> := {};
    ghost var whole := ReadNodes(r.Rest(), count, count);
    BehindNothing(whole);
    NoIds();
    for c := 0 to count
      invariant r.Valid() && r.ok && Usable(raws, vectors) && seen == IdSet(raws)
      invariant whole == Behind(raws, ReadNodes(r.Rest(), count - c, count))
    {
      ghost var rest := r.Rest();
      var nodeOk, raw := ParseNode(r, count, vectors);
      if !nodeOk || raw.id in seen {
        Refuses(raws, raw, nodeOk, ReadNode(rest, count), vectors);
        NodeRejects(raws, rest, count - c, count, vectors);
        return false, raws;
      }
      NodeAccepted(raws, raw, rest, r.Rest(), count - c, count);
      UsableSnoc(raws, raw, vectors);
      raws := raws + [raw];
      seen := seen + {raw.id};
    }
    NoneLeft(raws, r.Rest(), count);
    ok := true;
  }

  /** Distinct ids, every one with a vector. */
  ghost predicate Usable(raws: seq<RawNode>, vectors: map<RecordId, Vector>) {
    DistinctIds(raws) && forall i | 0 <= i < |raws| :: raws[i].id in vectors
  }

  lemma NoIds()
    ensures IdSet([]) == {} && DistinctIds([])
  {
  }

  lemma UsableSnoc(raws: seq<RawNode>, raw: RawNode, vectors: map<RecordId, Vector>)
    requires Usable(raws, vectors) && raw.id !in IdSet(raws) && raw.id in vectors
    ensures Usable(raws + [raw], vectors) && IdSet(raws + [raw]) == IdSet(raws) + {raw.id}
  {
    IdSetSnoc(raws, raw, raws + [raw]);
    var more := raws + [raw];
    forall i, j | 0 <= i < j < |more| ensures more[i].id != more[j].id {
      assert raws[i].id in IdSet(raws);
    }
  }

  lemma Refuses(raws: seq<RawNode>, raw: RawNode, nodeOk: bool, read: Read<RawNode>, vectors: map<RecordId, Vector>)
    requires !nodeOk ==> match read { case Some(p) => p.0.id !in vectors case None => true }
    requires nodeOk ==> read.Some? && read.value.0 == raw && raw.id in IdSet(raws)
    ensures Refused(raws, read, vectors)
  {
  }

  /** One more node read moves from the rest of the region to the nodes behind. */
  lemma NodeAccepted(raws: seq<RawNode>, raw: RawNode, rest: Bytes, tail: Bytes, left: nat, count: nat)
    requires left > 0 && ReadNode(rest, count) == Some((raw, tail))
    ensures Behind(raws, ReadNodes(rest, left, count)) == Behind(raws + [raw], ReadNodes(tail, left - 1, count))
  {
    hide ReadNode;
    BehindTwice(raws, [raw], ReadNodes(tail, left - 1, count));
  }

  lemma NoneLeft(raws: seq<RawNode>, rest: Bytes, count: nat)
    ensures Behind(raws, ReadNodes(rest, 0, count)) == Some((raws, rest))
  {
    NothingBehind(raws, rest);
  }

  /** The fixed fields; a truncated region leaves the reader failed. */
  method ParseFixed(r: ByteReader) returns (f: Fixed)
    requires r.Valid() && r.ok
    modifies r
    ensures r.Valid() && r.ok == ReadFixed(old(r.Rest())).Some?
    ensures r.ok ==> ReadFixed(old(r.Rest())) == Some((f, r.Rest()))
  {
    hide FromLE;
    ghost var s := r.Rest();
    var m := r.GetU32();
    var efConstruction := r.GetU32();
    var seed := r.GetU64();
    var count := r.GetU32();
    var maxLevel := r.GetU32();
    var entry := r.GetU32();
    f := Fixed(RawHeader(m, efConstruction, seed), count, maxLevel, entry);
    if |s| >= 28 { FixedSlices(s); }
  }

  /** The fixed fields, reached one after another. */
  lemma FixedSlices(s: Bytes)
    requires |s| >= 28
    ensures s[4..][..4] == s[4..8] && s[8..][..8] == s[8..16] && s[16..][..4] == s[16..20]
    ensures s[20..][..4] == s[20..24] && s[24..][..4] == s[24..28]
    ensures s[4..][4..] == s[8..] && s[8..][8..] == s[16..] && s[16..][4..] == s[20..] && s[20..][4..] == s[24..]
    ensures s[24..][4..] == s[28..]
  {
  }

  /** Rebuilds an index from its region and the record vectors; null for a malformed region. */
  method Deserialize(dimensionality: nat, metric: Metric, data: Bytes, vectors: map<RecordId, Vector>)
      returns (index: HnswIndex?)
    ensures index != null <==> Loads(data, vectors)
    ensures index != null ==> fresh(index) && var (h, raw) := ReadRegion(data).value;
      && index.G() == Build(raw, vectors)
      && index.P() == ParamsOf(h, dimensionality, metric)
  {
    hide ReadRegion, Loads, DistinctIds, Build, ToInt32;
    var ok, f, raws := ParseRegion(data, vectors);
    if !ok {
      return null;
    }
    index := Install(dimensionality, metric, f, raws, vectors);
  }

  /** The fixed fields and the nodes of a region; false when it is malformed or names an unknown or repeated id. */
  method ParseRegion(data: Bytes, vectors: map<RecordId, Vector>) returns (ok: bool, f: Fixed, raws: seq<RawNode>)
    ensures ok == Loads(data, vectors)
    ensures ok ==> ReadRegion(data) == Some((f.header, RawGraph(ToInt32(f.maxLevel), f.entry, raws)))
    ensures ok ==> forall i | 0 <= i < |raws| :: raws[i].id in vectors
  {
    hide ReadNodes, ReadFixed, DistinctIds, ReadRegion, Loads, ToInt32, FromLE;
    RegionRead(data);
    RegionLoads(data, vectors);
    raws := [];
    var r := new ByteReader(data);
    f := ParseFixed(r);
    if !r.ok {
      return false, f, raws;
    }
    var nodesOk, nodes := ParseNodes(r, f.count, vectors);
    raws := nodes;
    if !nodesOk {
      return false, f, raws;
    }
    assert |r.Rest()| == |r.data| - r.pos;
    if r.pos != |r.data| {
      return false, f, raws;
    }
    ok := |raws| == 0 || f.entry < |raws|;
  }

  /** The loader's conditions on the parsed pieces. */
  lemma RegionLoads(data: Bytes, vectors: map<RecordId, Vector>)
    ensures Loads(data, vectors) <==>
      match ReadFixed(data)
      case None => false
      case Some(f) =>
        match ReadNodes(f.1, f.0.count, f.0.count)
        case None => false
        case Some(ns) =>
          |ns.1| == 0 && DistinctIds(ns.0) && (forall i | 0 <= i < |ns.0| :: ns.0[i].id in vectors)
          && (|ns.0| == 0 || f.0.entry < |ns.0|)
  {
    hide ReadNodes, ReadFixed, ToInt32, DistinctIds;
  }

  lemma RegionRead(data: Bytes)
    ensures ReadRegion(data) ==
      match ReadFixed(data)
      case None => None
      case Some(f) =>
        match ReadNodes(f.1, f.0.count, f.0.count)
        case None => None
        case Some(ns) =>
          if ns.1 != [] then None else Some((f.0.header, RawGraph(ToInt32(f.0.maxLevel), f.0.entry, ns.0)))
  {
    hide ReadNodes, ReadFixed, ToInt32;
  }

  /** The index object over parsed nodes. */
  method Install(dimensionality: nat, metric: Metric, f: Fixed, raws: seq<RawNode>, vectors: map<RecordId, Vector>)
      returns (index: HnswIndex)
    requires forall i | 0 <= i < |raws| :: raws[i].id in vectors
    ensures fresh(index) && index.G() == Build(RawGraph(ToInt32(f.maxLevel), f.entry, raws), vectors)
    ensures index.P() == ParamsOf(f.header, dimensionality, metric)
  {
    index := new HnswIndex(dimensionality, metric, f.header.m, f.header.efConstruction, f.header.seed);
    var g := Build(RawGraph(ToInt32(f.maxLevel), f.entry, raws), vectors);
    index.nodes, index.idToInternal, index.liveCount := g.nodes, g.ids, g.liveCount;
    index.maxLevel, index.entryPoint := g.maxLevel, g.entryPoint;
  }
}
