/** Saving a collection, loading the image, and saving again. */
module SaveLoad {
  import opened Ordering
  import opened Identifiers
  import opened Vectors
  import opened Errors
  import opened Arena
  import opened Allocator
  import opened SnapshotFormat
  import opened SnapshotLayout
  import opened SnapshotRoundTrip
  import opened SnapshotWriter
  import opened RecordStore
  import opened Indexing
  import opened Collections
  import opened Persistence
  import opened Hnsw
  import Ivf
  import HnswModel
  import HnswFormat
  import HnswCanonical
  import HnswReload
  import HnswPersist
  import IvfModel

  /** A record list in id order holds each record of the map at one place. */
  lemma ListFacts(records: map<RecordId, Stored>)
    ensures var recs := RecordList(records);
      && (forall i, j | 0 <= i < j < |recs| :: recs[i].id != recs[j].id)
      && (forall i | 0 <= i < |recs| ::
            recs[i].id in records && Stored(recs[i].vector, recs[i].meta) == records[recs[i].id])
      && (forall id | id in records :: exists i | 0 <= i < |recs| :: recs[i].id == id)
  {
    hide RecordList, SortedIds, IdLess;
    ListedIds(records);
    var ids, recs := SortedIds(records.Keys), RecordList(records);
    forall id | id in records ensures exists i | 0 <= i < |recs| :: recs[i].id == id {
      assert id in ids;
      var i :| 0 <= i < |ids| && ids[i] == id;
      assert recs[i].id == id;
    }
  }

  /** The record list follows the sorted ids. */
  lemma ListedIds(records: map<RecordId, Stored>)
    ensures var ids, recs := SortedIds(records.Keys), RecordList(records);
      && |recs| == |ids| && Distinct(ids) && (forall id :: id in ids <==> id in records)
      && forall i | 0 <= i < |ids| ::
           ids[i] in records && recs[i] == Record(ids[i], records[ids[i]].vector, records[ids[i]].meta)
  {
    SortedIdsListed(records.Keys);
    hide SortedIds;
    var ids := SortedIds(records.Keys);
    forall i | 0 <= i < |ids| ensures ids[i] in records {
      assert ids[i] in ids;
    }
  }

  /** Listing a map and reading the list back as a map gives the map. */
  lemma MapOfList(records: map<RecordId, Stored>)
    ensures RecordMap(RecordList(records)) == records
  {
    hide RecordList, RecordMap;
    ListFacts(records);
    var recs := RecordList(records);
    RecordMapFacts(recs);
    SameMap(recs, RecordMap(recs), records);
  }

  lemma SameMap(recs: seq<Record>, a: map<RecordId, Stored>, b: map<RecordId, Stored>)
    requires forall i | 0 <= i < |recs| :: recs[i].id in a && recs[i].id in b && a[recs[i].id] == b[recs[i].id]
    requires forall id | id in a :: exists i | 0 <= i < |recs| :: recs[i].id == id
    requires forall id | id in b :: exists i | 0 <= i < |recs| :: recs[i].id == id
    ensures a == b
  {
  }

  // ---------------------------------------------------------------- what a saved collection decodes to

  /** The region is that of a well-formed graph over exactly these vectors. */
  ghost predicate GraphSaved(region: Bytes, vectors: map<RecordId, Vector>, p: HnswModel.Params, g: HnswModel.Graph) {
    && p.m >= 2 && p.efConstruction >= 1 && HnswModel.WellFormed(g, p) && HnswPersist.Storable(p, g)
    && HnswModel.Contents(g) == vectors && region == HnswPersist.Region(p, g)
  }

  /** Decoded state that a coherent collection was saved from. */
  ghost predicate Coherent(l: Loaded, metric: Metric) {
    if l.indexType == 1 then
      exists m: nat, ef: nat, seed: nat, g: HnswModel.Graph ::
        GraphSaved(l.region, VectorsIn(l.records), HnswModel.Params(l.config.dimensionality, metric, m, ef, seed), g)
    else if l.indexType == 2 then exists nlist: U32, seed: U64 :: l.region == Ivf.Region(nlist, seed)
    else l.indexType == 0 && l.region == []
  }

  /** Such state is accepted by the loader. */
  lemma CoherentAccepted(l: Loaded, metric: Metric)
    requires Coherent(l, metric)
    ensures IndexOk(l.indexType, l.region, VectorsIn(l.records))
  {
    hide GraphSaved, HnswPersist.Loads, VectorsIn, LE;
    if l.indexType == 1 {
      var m: nat, ef: nat, seed: nat, g: HnswModel.Graph :|
        GraphSaved(l.region, VectorsIn(l.records), HnswModel.Params(l.config.dimensionality, metric, m, ef, seed), g);
      GraphAccepted(l.region, VectorsIn(l.records), HnswModel.Params(l.config.dimensionality, metric, m, ef, seed), g);
    }
  }

  lemma GraphAccepted(region: Bytes, vectors: map<RecordId, Vector>, p: HnswModel.Params, g: HnswModel.Graph)
    requires GraphSaved(region, vectors, p, g)
    ensures HnswPersist.Loads(region, vectors)
  {
    assert HnswReload.Supplies(vectors, g);
    hide HnswModel.WellFormed, HnswPersist.Region, HnswPersist.Storable, HnswFormat.ReadRegion, HnswCanonical.Build;
    HnswPersist.SerializedReloads(p, g, vectors);
  }

  /** The image of such state decodes to it. */
  lemma ImageDecodes(l: Loaded, metric: Metric)
    requires Coherent(l, metric) && SnapshotRoundTrip.Storable(SourceOf(l))
    ensures Decode(Image(SourceOf(l))) == Success(l)
  {
    hide SnapshotRoundTrip.Storable, Decode, Image, RecordMap, RecordList, IndexOk, Coherent;
    MapOfList(l.records);
    CoherentAccepted(l, metric);
    DecodeImage(SourceOf(l));
  }

  // ---------------------------------------------------------------- the loaded index

  /** The rebuilt graph fits the format again. */
  lemma RebuiltFits(p: HnswModel.Params, g: HnswModel.Graph, vectors: map<RecordId, Vector>)
    requires HnswModel.WellFormed(g, p) && HnswPersist.Storable(p, g) && HnswReload.Supplies(vectors, g)
    ensures forall i | 0 <= i < |HnswCanonical.Canonical(g.nodes).nodes| ::
      HnswCanonical.Canonical(g.nodes).nodes[i].id in vectors
    ensures HnswPersist.Storable(p, HnswCanonical.Build(HnswCanonical.Canonical(g.nodes), vectors))
  {
    HnswReload.Reloadable(p, g, vectors);
    hide HnswCanonical.Canonical, HnswModel.WellFormed, HnswCanonical.Build, HnswReload.Supplies;
    HnswReload.ReloadFixed(p, g, vectors);
  }

  /** A graph rebuilt from such a region is coherent and serializes to the same region. */
  lemma GraphReloaded(h: HnswIndex, region: Bytes, vectors: map<RecordId, Vector>, p: HnswModel.Params,
                      g: HnswModel.Graph)
    requires GraphSaved(region, vectors, p, g) && HnswPersist.Loads(region, vectors)
    requires RebuiltGraph(h, HnswFormat.ReadRegion(region).value, vectors, p.dimensionality, p.metric)
    ensures Holds(Graph(h), vectors, p.dimensionality, p.metric) && IndexStorable(Graph(h))
    ensures BlobOf(Graph(h)) == region
  {
    hide HnswModel.WellFormed, HnswPersist.Region, HnswPersist.Storable, HnswFormat.ReadRegion, HnswCanonical.Build,
      HnswCanonical.Canonical, HnswReload.Induced, HnswReload.Supplies, HnswPersist.Loads, HnswModel.Contents;
    SavedSupplies(region, vectors, p, g);
    HnswPersist.SerializedReloads(p, g, vectors);
    RebuiltFits(p, g, vectors);
    SameParams(h, p);
  }

  lemma SavedSupplies(region: Bytes, vectors: map<RecordId, Vector>, p: HnswModel.Params, g: HnswModel.Graph)
    requires GraphSaved(region, vectors, p, g)
    ensures HnswReload.Supplies(vectors, g)
  {
    hide HnswModel.WellFormed, HnswPersist.Region, HnswPersist.Storable;
  }

  lemma SameParams(h: HnswIndex, p: HnswModel.Params)
    requires p.m >= 2 && p.efConstruction >= 1
    requires h.P() == HnswPersist.ParamsOf(HnswPersist.HeaderOf(p), p.dimensionality, p.metric)
    ensures h.P() == p
  {
  }

  /** The parameters read back from the region of an inverted file. */
  lemma FileReloaded(nlist: U32, seed: U64, region: Bytes)
    requires region == Ivf.Region(nlist, seed)
    ensures |region| == 12 && FromLE(region[..4]) == nlist && FromLE(region[4..]) == seed
  {
    Pow256Values();
    FromLELE(nlist, 4);
    FromLELE(seed, 8);
    hide LE, FromLE;
    assert region[..4] == LE(nlist, 4) && region[4..] == LE(seed, 8);
  }

  /** The rebuilt index is coherent with the decoded records and serializes to the decoded region. */
  lemma IndexReloaded(index: Index, l: Loaded, metric: Metric)
    requires Coherent(l, metric) && RebuiltIndex(index, l, metric)
    ensures Holds(index, VectorsIn(l.records), l.config.dimensionality, metric) && IndexStorable(index)
    ensures TypeOf(index) == l.indexType && BlobOf(index) == l.region
  {
    hide VectorsIn, HnswPersist.Loads, RebuiltGraph, GraphSaved, HnswModel.WellFormed, HnswPersist.Region,
      HnswPersist.Storable, LE, FromLE;
    match index
    case NoIndex =>
    case Graph(h) =>
      var m: nat, ef: nat, seed: nat, g: HnswModel.Graph :|
        GraphSaved(l.region, VectorsIn(l.records), HnswModel.Params(l.config.dimensionality, metric, m, ef, seed), g);
      GraphReloaded(h, l.region, VectorsIn(l.records), HnswModel.Params(l.config.dimensionality, metric, m, ef, seed),
                    g);
    case Inverted(f) =>
      var nlist: U32, seed: U64 :| l.region == Ivf.Region(nlist, seed);
      FileReloaded(nlist, seed, l.region);
  }

  // ---------------------------------------------------------------- collections

  /** What a collection holds, as decoded state. */
  ghost function ViewOf(c: Collection): Loaded
    reads c, c.allocator, Objects(c.index)
  {
    Loaded(c.config, TypeOf(c.index), c.Stored(), c.Blob())
  }

  /** What the collection holds fits the format. */
  ghost predicate Writable(c: Collection)
    reads c, c.allocator, Objects(c.index)
  {
    IndexStorable(c.index) && SnapshotRoundTrip.Storable(SourceOf(ViewOf(c)))
  }

  /** A coherent collection that fits the format. */
  ghost predicate Savable(c: Collection)
    reads c, c.allocator, Objects(c.index)
  {
    c.Valid() && Writable(c)
  }

  lemma IndexCoherent(index: Index, l: Loaded, metric: Metric)
    requires Holds(index, VectorsIn(l.records), l.config.dimensionality, metric) && IndexStorable(index)
    requires l.indexType == TypeOf(index) && l.region == BlobOf(index)
    ensures Coherent(l, metric)
  {
    hide HnswModel.WellFormed, HnswPersist.Region, HnswPersist.Storable, VectorsIn, LE;
    match index
    case NoIndex =>
    case Graph(g) =>
      assert GraphSaved(l.region, VectorsIn(l.records),
                        HnswModel.Params(l.config.dimensionality, metric, g.m, g.efConstruction, g.seed), g.G());
    case Inverted(f) =>
  }

  /** The image of a savable collection decodes to what it holds. */
  lemma SavedDecodes(c: Collection)
    requires Savable(c)
    ensures Coherent(ViewOf(c), c.metric) && SnapshotRoundTrip.Storable(SourceOf(ViewOf(c)))
    ensures Decode(Image(SourceOf(ViewOf(c)))) == Success(ViewOf(c))
  {
    hide SnapshotRoundTrip.Storable, Decode, Image, IndexStorable, RecordList, Holds, Coherent, VectorsIn, BlobOf;
    IndexCoherent(c.index, ViewOf(c), c.metric);
    ImageDecodes(ViewOf(c), c.metric);
  }

  /** Captures and encodes a collection, coherent or not. */
  method Save(c: Collection) returns (saved: Bytes)
    requires Writable(c)
    ensures Writable(c) && saved == Image(SourceOf(ViewOf(c)))
    ensures ViewOf(c) == old(ViewOf(c)) && c.Valid() == old(c.Valid())
  {
    ghost var before := ViewOf(c);
    hide Collection.Valid, Collection.Stored, Image, SnapshotRoundTrip.Storable, IndexStorable, RecordList,
      Collection.Blob;
    var view := c.Capture();
    assert unchanged(c) && unchanged(c.allocator) && unchanged(Objects(c.index));
    assert view == SourceOf(before);
    saved := Encode(view);
    assert unchanged(c) && unchanged(c.allocator) && unchanged(Objects(c.index));
  }

  lemma LoadedIsCoherent(d: Collection, l: Loaded, metric: Metric, allocator: MemoryAllocator)
    requires Coherent(l, metric) && SnapshotRoundTrip.Storable(SourceOf(l)) && LoadedAs(d, l, metric, allocator)
    ensures Savable(d) && ViewOf(d) == l
  {
    hide Holds, RebuiltIndex, IndexStorable, VectorsIn, RecordList, IvfModel.Permutes, SnapshotRoundTrip.Storable,
      Coherent, BlobOf;
    IndexReloaded(d.index, l, metric);
  }

  lemma ConfigKept(c: Collection)
    ensures ViewOf(c).config == c.config
  {
    hide Collection.Stored;
  }

  /** Loads the image of coherent state. */
  method LoadBack(saved: Bytes, ghost l: Loaded, ghost metric: Metric, mapBase: int, allocator: MemoryAllocator,
                  tag: Tag, metrics: Byte -> Metric, shuffles: nat -> IvfModel.Shuffle) returns (loaded: Collection)
    requires Decode(saved) == Success(l) && Coherent(l, metric) && SnapshotRoundTrip.Storable(SourceOf(l))
    requires metrics(l.config.metric) == metric && allocator.Valid() && TagBlocks(allocator.live, tag) == {}
    requires mapBase >= allocator.capacity || mapBase + |saved| <= 0
    requires forall seed :: IvfModel.Permutes(shuffles(seed))
    ensures Savable(loaded) && ViewOf(loaded) == l
  {
    hide SnapshotRoundTrip.Storable, Decode, LoadedAs, IvfModel.Permutes, TagBlocks, ViewOf, Savable, RebuiltIndex,
      Coherent, LegalIndex, MemoryAllocator.Valid, Collection.Valid;
    var r := Load(saved, mapBase, allocator, tag, metrics, shuffles);
    loaded := r.value;
    LoadedIsCoherent(loaded, l, metric, allocator);
  }

  /** Saving a coherent collection, loading the image under the same metric and saving again writes the same bytes;
      the loaded collection is coherent and holds the same records. */
  method SaveLoadSave(c: Collection, mapBase: int, allocator: MemoryAllocator, tag: Tag, metrics: Byte -> Metric,
                      shuffles: nat -> IvfModel.Shuffle) returns (saved: Bytes, loaded: Collection, again: Bytes)
    requires Savable(c) && metrics(c.config.metric) == c.metric
    requires allocator.Valid() && TagBlocks(allocator.live, tag) == {}
    requires mapBase >= allocator.capacity || mapBase + |Image(SourceOf(ViewOf(c)))| <= 0
    requires forall seed :: IvfModel.Permutes(shuffles(seed))
    ensures Decode(saved) == Success(old(ViewOf(c)))
    ensures Savable(loaded) && ViewOf(loaded) == old(ViewOf(c)) && again == saved
  {
    hide SnapshotRoundTrip.Storable, Image, Decode, TagBlocks, ViewOf, Writable, Coherent, IvfModel.Permutes,
      MemoryAllocator.Valid, Collection.Valid;
    ghost var l := ViewOf(c);
    SavedDecodes(c);
    ConfigKept(c);
    saved := Save(c);
    loaded := LoadBack(saved, l, c.metric, mapBase, allocator, tag, metrics, shuffles);
    again := Save(loaded);
  }
}
