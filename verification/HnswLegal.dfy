/** Which of the index regions that the loader accepts give a well-formed index over the records. */
module HnswLegal {
  import opened Ordering
  import opened Vectors
  import opened Errors
  import opened HnswGraph
  import opened HnswModel
  import opened HnswCanonical
  import opened HnswFormat
  import opened HnswReload
  import opened HnswPersist

  // ---------------------------------------------------------------- the check the loader leaves out

  /** The graph a region describes, before any vector is attached. */
  function Bare(raws: seq<RawNode>): Nodes {
    seq(|raws|, i requires 0 <= i < |raws| =>
      Node(raws[i].id, [], raws[i].topLayer, false, raws[i].neighbors))
  }

  /** One node per record, legal lists, an entry point of the highest level under that level: what a region must
      satisfy besides being accepted. */
  ghost predicate LegalRegion(raw: RawGraph, keys: set<RecordId>, p: Params) {
    && IdSet(raw.nodes) == keys && Topped(Bare(raw.nodes), EntryOf(raw), raw.maxLevel)
    && forall x | 0 <= x < |raw.nodes| :: GoodNode(Bare(raw.nodes), p, x)
  }

  /** What the loader has checked of a region it accepts: the bytes are those of the header and the graph read from
      them, every neighbour is a node, every id is known and none is repeated, and the entry point is a node. */
  lemma AcceptedRegion(region: Bytes, vectors: map<RecordId, Vector>)
    requires Loads(region, vectors)
    ensures var (h, raw) := ReadRegion(region).value;
      && region == RegionBytes(h, raw)
      && (forall i | 0 <= i < |raw.nodes| :: raw.nodes[i].id in vectors && NodeInside(raw.nodes[i], |raw.nodes|))
      && (forall i, j | 0 <= i < j < |raw.nodes| :: raw.nodes[i].id != raw.nodes[j].id)
      && (raw.nodes != [] ==> raw.entry < |raw.nodes|)
  {
    RegionSound(region);
    hide ReadRegion, RegionBytes, FitsHeader, FitsNode, NodeInside;
    var raws := ReadRegion(region).value.1.nodes;
    forall i | 0 <= i < |raws| ensures NodeInside(raws[i], |raws|) {
      assert raws[i] in raws;
      FitsInside(raws[i], |raws|);
    }
  }

  /** A node has one list on each of its layers, and every neighbour is among `count` nodes. */
  ghost predicate NodeInside(n: RawNode, count: nat) {
    |n.neighbors| == n.topLayer + 1 && forall l, e | l in n.neighbors && e in l :: e < count
  }

  lemma FitsInside(n: RawNode, count: nat)
    requires FitsNode(n, count)
    ensures NodeInside(n, count)
  {
    forall l, e | l in n.neighbors && e in l ensures e < count {
      assert FitsList(l, count);
    }
  }

  // ---------------------------------------------------------------- accepted, and not legal

  /** A region that fits the layout is accepted as soon as its ids are distinct and known and its entry is a node. */
  lemma Accepted(h: RawHeader, raw: RawGraph, vectors: map<RecordId, Vector>)
    requires FitsHeader(h) && FitsGraph(raw) && DistinctIds(raw.nodes)
    requires forall i | 0 <= i < |raw.nodes| :: raw.nodes[i].id in vectors
    requires raw.nodes == [] || raw.entry < |raw.nodes|
    ensures Loads(RegionBytes(h, raw), vectors) && ReadRegion(RegionBytes(h, raw)) == Some((h, raw))
  {
    RegionRoundTrip(h, raw);
    hide ReadRegion, RegionBytes, DistinctIds;
  }

  /** The loader takes the stored level on trust: one node of level 0 under level 5 is accepted, and the first layer
      a search looks at is one the entry point does not have. */
  lemma BadLevelAccepted(v: Vector, p: Params)
    ensures var raw := RawGraph(5, 0, [RawNode([97], 0, [[]])]);
      var region, vectors := RegionBytes(RawHeader(2, 1, 0), raw), map[[97] := v];
      && Loads(region, vectors) && ReadRegion(region) == Some((RawHeader(2, 1, 0), raw))
      && var g := Build(raw, vectors);
      && g.maxLevel == 5 && g.entryPoint == 0 && |g.nodes| == 1 && |g.nodes[0].neighbors| == 1 && !WellFormed(g, p)
  {
    var node := RawNode([97], 0, [[]]);
    var raw, vectors := RawGraph(5, 0, [node]), map[[97] := v];
    assert FitsNode(node, 1);
    Accepted(RawHeader(2, 1, 0), raw, vectors);
    hide Loads, ReadRegion, RegionBytes, Linked, Named;
    var g := Build(raw, vectors);
    assert g.nodes[0].topLayer == 0 && !Topped(g.nodes, g.entryPoint, g.maxLevel);
  }

  /** A region without nodes is accepted over any records, and then indexes none of them. */
  lemma OmissionAccepted(vectors: map<RecordId, Vector>)
    ensures var raw := RawGraph(-1, NONE, []);
      var region := RegionBytes(RawHeader(2, 1, 0), raw);
      && Loads(region, vectors) && ReadRegion(region) == Some((RawHeader(2, 1, 0), raw))
      && Build(raw, vectors) == EMPTY
  {
    Accepted(RawHeader(2, 1, 0), RawGraph(-1, NONE, []), vectors);
  }

  // ---------------------------------------------------------------- accepted and legal

  /** Every node has a list on each of its layers. */
  ghost predicate Layered(raws: seq<RawNode>) {
    forall i | 0 <= i < |raws| :: |raws[i].neighbors| == raws[i].topLayer + 1
  }

  lemma NodeLayered(n: RawNode, count: nat)
    requires FitsNode(n, count)
    ensures |n.neighbors| == n.topLayer + 1
  {
  }

  lemma RegionLayered(region: Bytes)
    requires ReadRegion(region).Some?
    ensures Layered(ReadRegion(region).value.1.nodes)
  {
    RegionSound(region);
    hide ReadRegion, RegionBytes, FitsHeader, FitsNode;
    var raws := ReadRegion(region).value.1.nodes;
    forall i | 0 <= i < |raws| ensures |raws[i].neighbors| == raws[i].topLayer + 1 {
      assert raws[i] in raws;
      NodeLayered(raws[i], |raws|);
    }
  }

  /** The built graph is linked exactly when every list of the region is legal. */
  lemma LinkedWhenLegal(raw: RawGraph, vectors: map<RecordId, Vector>, p: Params)
    requires Layered(raw.nodes) && forall i | 0 <= i < |raw.nodes| :: raw.nodes[i].id in vectors
    ensures Linked(Build(raw, vectors).nodes, p)
      <==> forall x | 0 <= x < |raw.nodes| :: GoodNode(Bare(raw.nodes), p, x)
  {
    hide IdsOf;
    var b, bare := Build(raw, vectors).nodes, Bare(raw.nodes);
    forall x, layer: nat, list | 0 <= x < |bare|
      ensures GoodList(b, p, x, layer, list) <==> GoodList(bare, p, x, layer, list)
    {
    }
    hide GoodList;
    forall x: nat | x < |bare| ensures GoodNode(b, p, x) <==> GoodNode(bare, p, x) {
      assert b[x].neighbors == bare[x].neighbors;
      assert forall l: nat | l < |bare[x].neighbors| ::
          GoodList(b, p, x, l, b[x].neighbors[l]) <==> GoodList(bare, p, x, l, bare[x].neighbors[l]);
    }
  }

  /** The built graph stores the vectors of the ids it names. */
  lemma BuiltContents(raw: RawGraph, vectors: map<RecordId, Vector>)
    requires DistinctIds(raw.nodes) && forall i | 0 <= i < |raw.nodes| :: raw.nodes[i].id in vectors
    ensures forall id | id in Build(raw, vectors).ids :: Build(raw, vectors).ids[id] < |Build(raw, vectors).nodes|
    ensures Contents(Build(raw, vectors)) == vectors <==> IdSet(raw.nodes) == vectors.Keys
  {
    IdsOfFacts(raw.nodes);
    hide IdsOf;
    var g := Build(raw, vectors);
    forall id ensures id in Contents(g) <==> id in IdSet(raw.nodes) {
      if id in Contents(g) { assert raw.nodes[g.ids[id]].id == id; }
      if id in IdSet(raw.nodes) {
        var i :| 0 <= i < |raw.nodes| && raw.nodes[i].id == id;
        assert g.ids[id] == i && !g.nodes[i].deleted;
      }
    }
    forall id | id in Contents(g) ensures Contents(g)[id] == vectors[id] {
      assert raw.nodes[g.ids[id]].id == id;
    }
    hide Contents, IdSet, Build;
    assert forall id | id in IdSet(raw.nodes) :: id in vectors;
    if Contents(g) == vectors { assert vectors.Keys == Contents(g).Keys; }
  }

  lemma ToppedWhenLegal(raw: RawGraph, vectors: map<RecordId, Vector>)
    requires forall i | 0 <= i < |raw.nodes| :: raw.nodes[i].id in vectors
    requires raw.nodes == [] || raw.entry < |raw.nodes|
    ensures var g := Build(raw, vectors);
      Topped(g.nodes, g.entryPoint, g.maxLevel) <==> Topped(Bare(raw.nodes), EntryOf(raw), raw.maxLevel)
  {
    hide IdsOf;
    var g, bare := Build(raw, vectors), Bare(raw.nodes);
    assert forall i | 0 <= i < |raw.nodes| :: g.nodes[i].topLayer == bare[i].topLayer == raw.nodes[i].topLayer;
  }

  /** The built graph names its nodes and counts them. */
  lemma BuiltNamed(raw: RawGraph, vectors: map<RecordId, Vector>, p: Params)
    requires DistinctIds(raw.nodes) && forall i | 0 <= i < |raw.nodes| :: raw.nodes[i].id in vectors
    requires forall id | id in vectors :: id != [] && |vectors[id]| == p.dimensionality
    ensures var g := Build(raw, vectors); Named(g.nodes, g.ids, p) && g.liveCount == |LiveNodes(g.nodes)|
  {
    var g := Build(raw, vectors);
    AllLive(g.nodes);
    hide Named, IdsOf, DistinctIds, LiveNodes;
    NamedByIds(raw.nodes, g.nodes, p);
  }

  /** An accepted region gives a well-formed index over exactly the records if and only if it is legal. */
  lemma LegalIsWellFormed(region: Bytes, vectors: map<RecordId, Vector>, p: Params)
    requires Loads(region, vectors)
    requires forall id | id in vectors :: id != [] && |vectors[id]| == p.dimensionality
    ensures var raw := ReadRegion(region).value.1;
      (WellFormed(Build(raw, vectors), p) && Contents(Build(raw, vectors)) == vectors)
      <==> LegalRegion(raw, vectors.Keys, p)
  {
    hide ReadRegion, Layered, DistinctIds, GoodNode, IdSet, Build, Bare, EntryOf, Linked, Named, Topped, LiveNodes;
    RegionLayered(region);
    var raw := ReadRegion(region).value.1;
    LinkedWhenLegal(raw, vectors, p);
    BuiltContents(raw, vectors);
    ToppedWhenLegal(raw, vectors);
    BuiltNamed(raw, vectors, p);
  }

  /** Every region that a well-formed index is serialized to is legal over what the index stores. */
  lemma SerializedIsLegal(p: Params, g: Graph)
    requires WellFormed(g, p) && Storable(p, g)
    ensures LegalRegion(Canonical(g.nodes), Contents(g).Keys, p)
  {
    SerializedReloads(p, g, Contents(g));
    StoredVectorsFit(p, g);
    hide Region, ReadRegion, WellFormed, Storable, Canonical, Build, Induced, LegalRegion, Loads;
    LegalIsWellFormed(Region(p, g), Contents(g), p);
  }

  lemma StoredVectorsFit(p: Params, g: Graph)
    requires WellFormed(g, p)
    ensures Supplies(Contents(g), g)
    ensures forall id | id in Contents(g) :: id != [] && |Contents(g)[id]| == p.dimensionality
  {
    hide Linked, Topped;
  }
}
