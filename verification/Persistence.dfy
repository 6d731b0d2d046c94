/** Loading a snapshot image into a collection, and the round trip through save and load. */
module Persistence {
  import opened Ordering
  import opened Identifiers
  import opened Vectors
  import opened Errors
  import opened Arena
  import opened Allocator
  import opened SnapshotFormat
  import opened SnapshotLayout
  import opened SnapshotImage
  import opened SnapshotRoundTrip
  import opened SnapshotWriter
  import opened SnapshotReader
  import opened RecordStore
  import opened Indexing
  import opened Collections
  import opened Hnsw
  import opened Ivf
  import HnswModel
  import HnswFormat
  import HnswCanonical
  import HnswPersist
  import HnswLegal
  import IvfModel
  import IvfReload

  // ---------------------------------------------------------------- mapped records

  /** Slots whose vectors stay in the mapping. */
  function MappedSlots(h: Header, slots: map<RecordId, Slot>, mapBase: int): map<RecordId, RecordSlot> {
    map id | id in slots ::
      RecordSlot(
        Block(At(mapBase + h.vectorOff + slots[id].vectorIndex * (4 * h.dimensionality)), 4 * h.dimensionality),
        slots[id].meta)
  }

  lemma {:induction false} StrideInside(i: nat, count: nat, stride: nat)
    requires i < count
    ensures 0 <= i * stride && i * stride + stride <= count * stride
    decreases count
  {
    NextStride(count, stride);
    if i < count - 1 { StrideInside(i, count - 1, stride); }
  }

  lemma NextStride(count: nat, stride: nat)
    requires count > 0
    ensures count * stride == (count - 1) * stride + stride && (count - 1) * stride >= 0
  {
  }

  /** A slot in range points at its own vector, inside the mapping and outside the arena. */
  lemma SlotInMapping(s: Space, h: Header, slot: Slot)
    requires GoodSpace(s) && HeaderOk(h, |s.mapping|) && slot.vectorIndex < h.recordCount
    ensures var block :=
      Block(At(s.mapBase + h.vectorOff + slot.vectorIndex * (4 * h.dimensionality)), 4 * h.dimensionality);
      && !InArena(s, block) && GoodSlot(s, h.dimensionality, block)
      && ReadBlock(s, block, h.dimensionality) == SlotVector(s.mapping, h, slot)
  {
    hide VectorAt;
    StrideInside(slot.vectorIndex, h.recordCount, 4 * h.dimensionality);
  }

  /** Records outside the arena own no block. */
  lemma ForeignHouse(s: Space, live: LiveMap, tag: Tag, dim: nat, records: map<RecordId, RecordSlot>)
    requires TagBlocks(live, tag) == {} && 1 <= dim <= 65536
    requires forall id | id in records ::
      id != [] && !InArena(s, records[id].block) && GoodSlot(s, dim, records[id].block)
    ensures Housed(s, live, tag, dim, records, {})
  {
    hide GoodSlot, InArena;
    assert Offsets(s, records) == {};
    forall o | o in live ensures live[o].tag != tag {
      assert o !in TagBlocks(live, tag);
    }
  }

  /** A parsed directory makes a sound store over the mapping, with exactly the decoded records. */
  lemma MappedHouse(s: Space, live: LiveMap, tag: Tag, h: Header, slots: map<RecordId, Slot>)
    requires GoodSpace(s) && HeaderOk(h, |s.mapping|) && TagBlocks(live, tag) == {}
    requires forall id | id in slots :: id != [] && slots[id].vectorIndex < h.recordCount
    ensures Housed(s, live, tag, h.dimensionality, MappedSlots(h, slots, s.mapBase), {})
    ensures Contents(s, MappedSlots(h, slots, s.mapBase), h.dimensionality) == RecordsIn(s.mapping, h, slots)
  {
    assert 1 <= h.dimensionality <= 65536;
    hide HeaderOk, SlotVector, ReadBlock, GoodSpace, Housed, TagBlocks, InArena, GoodSlot;
    var records := MappedSlots(h, slots, s.mapBase);
    forall id | id in records
      ensures !InArena(s, records[id].block) && GoodSlot(s, h.dimensionality, records[id].block)
      ensures ReadBlock(s, records[id].block, h.dimensionality) == SlotVector(s.mapping, h, slots[id])
    {
      SlotInMapping(s, h, slots[id]);
    }
    ForeignHouse(s, live, tag, h.dimensionality, records);
  }

  // ---------------------------------------------------------------- the index

  /** What the loader rebuilds from an index region it accepts. */
  ghost predicate RebuiltIndex(index: Index, l: Loaded, metric: Metric)
    reads Objects(index)
  {
    && TypeOf(index) == l.indexType
    && match index
       case NoIndex => true
       case Graph(g) =>
         && HnswPersist.Loads(l.region, VectorsIn(l.records))
         && RebuiltGraph(g, HnswFormat.ReadRegion(l.region).value, VectorsIn(l.records), l.config.dimensionality,
                         metric)
       case Inverted(f) =>
         && |l.region| == 12 && f.requestedNlist == FromLE(l.region[..4]) && f.seed == FromLE(l.region[4..])
         && f.entries == IvfReload.Refilled(VectorsIn(l.records))
         && Holds(index, VectorsIn(l.records), l.config.dimensionality, metric)
  }

  ghost predicate RebuiltGraph(g: HnswIndex, region: (HnswFormat.RawHeader, HnswCanonical.RawGraph),
                             vectors: map<RecordId, Vector>,
                               dim: nat, metric: Metric)
    requires forall i | 0 <= i < |region.1.nodes| :: region.1.nodes[i].id in vectors
    reads g
  {
    g.G() == HnswCanonical.Build(region.1, vectors)
    && g.P() == HnswPersist.ParamsOf(region.0, dim, metric)
  }

  /** An inverted file draws its initial cells by the generator of its own seed. */
  ghost predicate Shuffled(index: Index, shuffles: nat -> IvfModel.Shuffle) {
    index.Inverted? ==> index.file.shuffle == shuffles(index.file.seed)
  }

  /** The kind and the state of the index rebuilt from a region: none, the graph of the region over the records, or an
      inverted file of the region's two parameters over the records in id order. */
  ghost predicate RebuiltState(kind: IndexKind, index: IndexState, l: Loaded, metric: Metric,
                               shuffles: nat -> IvfModel.Shuffle) {
    if l.indexType == 0 then kind == Unindexed && index == Absent
    else if l.indexType == 1 then
      && HnswPersist.Loads(l.region, VectorsIn(l.records))
      && var region := HnswFormat.ReadRegion(l.region).value;
         var p := HnswPersist.ParamsOf(region.0, l.config.dimensionality, metric);
         index == GraphState(HnswCanonical.Build(region.1, VectorsIn(l.records)))
         && kind == GraphKind(p.m, p.efConstruction, p.seed)
    else
      && |l.region| == 12 && index.FileState? && index.entries == IvfReload.Refilled(VectorsIn(l.records))
      && var seed := FromLE(l.region[4..]); kind == FileKind(FromLE(l.region[..4]), seed, shuffles(seed))
  }

  lemma RebuiltStates(index: Index, l: Loaded, metric: Metric, shuffles: nat -> IvfModel.Shuffle)
    requires RebuiltIndex(index, l, metric) && Shuffled(index, shuffles)
    ensures RebuiltState(KindOf(index), StateOf(index), l, metric, shuffles)
  {
    hide HnswFormat.ReadRegion, HnswPersist.Loads, HnswCanonical.Build, VectorsIn, FromLE, IvfReload.Refilled, Holds;
  }

  /** Rebuilds the persisted index over the decoded vectors; None when the region is malformed. */
  method RebuildIndex(l: Loaded, metric: Metric, shuffles: nat -> IvfModel.Shuffle) returns (r: Option<Index>)
    requires l.indexType <= 2 && forall seed :: IvfModel.Permutes(shuffles(seed))
    requires forall id | id in l.records :: id != [] && |l.records[id].vector| == l.config.dimensionality
    ensures r.Some? <==> IndexOk(l.indexType, l.region, VectorsIn(l.records))
    ensures r.Some? ==> fresh(Objects(r.value)) && RebuiltIndex(r.value, l, metric) && Shuffled(r.value, shuffles)
  {
    hide FromLE;
    if l.indexType == 0 {
      return Some(NoIndex);
    }
    if l.indexType == 1 {
      var graph := HnswPersist.Deserialize(l.config.dimensionality, metric, l.region, VectorsIn(l.records));
      r := if graph == null then None else Some(Graph(graph));
      return;
    }
    var nlist, seed, ok := ParseParameters(l.region);
    if !ok {
      return None;
    }
    assert IvfModel.Permutes(shuffles(seed));
    var file := new IvfIndex(l.config.dimensionality, metric, nlist, seed, shuffles(seed));
    Refill(file, l.records);
    r := Some(Inverted(file));
  }

  /** The 12-byte region of an inverted file. */
  method ParseParameters(region: Bytes) returns (nlist: nat, seed: nat, ok: bool)
    ensures ok == (|region| == 12)
    ensures ok ==> nlist == FromLE(region[..4]) && seed == FromLE(region[4..])
  {
    hide FromLE, ReadInt;
    ParametersRead(region);
    var r := new ByteReader(region);
    var n := r.GetU32();
    var s := r.GetU64();
    assert |r.Rest()| == |r.data| - r.pos;
    nlist, seed, ok := n, s, r.ok && r.pos == |r.data|;
  }

  lemma ParametersRead(region: Bytes)
    ensures ReadInt(region, 4).Some? <==> |region| >= 4
    ensures |region| >= 4 ==> ReadInt(region, 4).value.0 == FromLE(region[..4])
    ensures |region| >= 4 ==> (ReadInt(ReadInt(region, 4).value.1, 8).Some? <==> |region| >= 12)
    ensures |region| >= 12 ==> |ReadInt(ReadInt(region, 4).value.1, 8).value.1| == |region| - 12
    ensures |region| == 12 ==> ReadInt(ReadInt(region, 4).value.1, 8).value.0 == FromLE(region[4..])
  {
    hide FromLE;
    if |region| == 12 { assert region[4..][..8] == region[4..]; }
  }

  /** Re-adds every record in id order. */
  method Refill(file: IvfIndex, records: map<RecordId, Stored>)
    requires file.Valid() && file.Records() == map[] && file.entries == [] && file.idToIndex == map[]
    requires forall id | id in records :: id != [] && |records[id].vector| == file.dimensionality
    modifies file
    ensures file.Valid() && file.Records() == VectorsIn(records)
    ensures file.entries == IvfReload.Refilled(VectorsIn(records))
  {
    hide SortedIds, Kept, VectorsIn, Elements, RefillEntries, IvfReload.Refilled;
    var ids := SortedIds(records.Keys);
    SortedIdsListed(records.Keys);
    RefillStart(records, ids);
    RefillEnd(records);
    for i := 0 to |ids|
      invariant file.Valid() && file.Records() == Kept(records, Elements(ids[..i]))
      invariant file.idToIndex.Keys == Elements(ids[..i]) && file.entries == RefillEntries(records, ids[..i])
    {
      RefillOne(file, records, ids, i);
    }
    ElementsEnds(ids);
    AllKept(records, Elements(ids));
  }

  /** The entries for the given ids. */
  function RefillEntries(records: map<RecordId, Stored>, ids: seq<RecordId>): seq<IvfModel.Entry> {
    seq(|ids|, i requires 0 <= i < |ids| =>
      IvfModel.Entry(ids[i], if ids[i] in records then records[ids[i]].vector else [], false))
  }

  lemma RefillStart(records: map<RecordId, Stored>, ids: seq<RecordId>)
    ensures Kept(records, Elements(ids[..0])) == map[] && Elements(ids[..0]) == {}
    ensures RefillEntries(records, ids[..0]) == []
  {
  }

  lemma RefillEnd(records: map<RecordId, Stored>)
    ensures RefillEntries(records, SortedIds(records.Keys)) == IvfReload.Refilled(VectorsIn(records))
  {
    assert VectorsIn(records).Keys == records.Keys;
    SortedIdsListed(records.Keys);
    hide SortedIds, Elements, Distinct;
  }

  method RefillOne(file: IvfIndex, records: map<RecordId, Stored>, ids: seq<RecordId>, i: nat)
    requires file.Valid() && i < |ids| && Distinct(ids)
    requires file.Records() == Kept(records, Elements(ids[..i])) && file.idToIndex.Keys == Elements(ids[..i])
    requires file.entries == RefillEntries(records, ids[..i])
    requires ids[i] in records && ids[i] != [] && |records[ids[i]].vector| == file.dimensionality
    modifies file
    ensures file.Valid() && file.Records() == Kept(records, Elements(ids[..i + 1]))
    ensures file.idToIndex.Keys == Elements(ids[..i + 1]) && file.entries == RefillEntries(records, ids[..i + 1])
  {
    RefillNext(records, ids, i);
    hide Kept, Elements, RefillEntries;
    var added := file.Add(ids[i], records[ids[i]].vector);
  }

  lemma RefillNext(records: map<RecordId, Stored>, ids: seq<RecordId>, i: nat)
    requires i < |ids| && Distinct(ids) && ids[i] in records
    ensures ids[i] !in Elements(ids[..i]) && Elements(ids[..i + 1]) == Elements(ids[..i]) + {ids[i]}
    ensures RefillEntries(records, ids[..i + 1])
            == RefillEntries(records, ids[..i]) + [IvfModel.Entry(ids[i], records[ids[i]].vector, false)]
    ensures Kept(records, Elements(ids[..i + 1])) == Kept(records, Elements(ids[..i]))[ids[i] := records[ids[i]].vector]
  {
    ElementsStep(ids, i);
    assert ids[..i + 1] == ids[..i] + [ids[i]];
    KeptSnoc(records, ids[..i], ids[i]);
    hide Kept, Elements;
  }

  // ---------------------------------------------------------------- load

  /** The collection holds what was decoded, through pointers into the mapping. */
  ghost predicate LoadedAs(c: Collection, l: Loaded, metric: Metric, allocator: MemoryAllocator)
    reads c, c.allocator, Objects(c.index)
  {
    && c.allocator == allocator && c.Seeded() && c.Sound({}) && c.Stored() == l.records && c.config == l.config
    && c.metric == metric && RebuiltIndex(c.index, l, metric)
  }

  /** A graph region names one node per record, with legal lists and a legal entry point; the other index types
      have nothing to check. */
  ghost predicate LegalIndex(l: Loaded, metric: Metric) {
    l.indexType == 1 ==>
      match HnswFormat.ReadRegion(l.region)
      case None => false
      case Some(region) =>
        HnswLegal.LegalRegion(region.1, l.records.Keys, HnswPersist.ParamsOf(region.0, l.config.dimensionality, metric))
  }

  /** The rebuilt index is coherent with the decoded records exactly when the region is legal. */
  lemma RebuiltHolds(index: Index, l: Loaded, metric: Metric)
    requires RebuiltIndex(index, l, metric)
    requires forall id | id in l.records :: id != [] && |l.records[id].vector| == l.config.dimensionality
    ensures Holds(index, VectorsIn(l.records), l.config.dimensionality, metric) <==> LegalIndex(l, metric)
  {
    match index
    case NoIndex =>
    case Inverted(_) =>
    case Graph(g) =>
      var vectors, region := VectorsIn(l.records), HnswFormat.ReadRegion(l.region).value;
      var p := HnswPersist.ParamsOf(region.0, l.config.dimensionality, metric);
      assert vectors.Keys == l.records.Keys;
      hide HnswFormat.ReadRegion, HnswPersist.Loads, HnswModel.WellFormed, HnswLegal.LegalRegion, HnswCanonical.Build,
        VectorsIn;
      HnswLegal.LegalIsWellFormed(l.region, vectors, p);
  }

  /** A loaded collection satisfies the collection invariant exactly when its graph region is legal. */
  lemma LoadedValid(c: Collection, l: Loaded, metric: Metric, allocator: MemoryAllocator)
    requires LoadedAs(c, l, metric, allocator)
    ensures c.Valid() <==> LegalIndex(l, metric)
  {
    c.StoredVectors();
    hide Collection.Sound, Collection.Stored, RebuiltIndex, VectorsIn, LegalIndex, Collection.Seeded, Holds;
    RebuiltHolds(c.index, l, metric);
  }

  /** Loading mirrors decoding: the same error, or a collection that holds what was decoded and satisfies the
      collection invariant exactly when the decoded graph region is legal. */
  ghost predicate Mirrors(r: Result<Collection>, decoded: Result<Loaded>, metrics: Byte -> Metric,
                          allocator: MemoryAllocator)
    reads if r.Success? then {r.value, r.value.allocator} + Objects(r.value.index) else {}
  {
    if r.Failure? then decoded == Failure(r.category)
    else
      && decoded.Success?
      && var metric := metrics(decoded.value.config.metric);
      && LoadedAs(r.value, decoded.value, metric, allocator)
      && (r.value.Valid() <==> LegalIndex(decoded.value, metric))
  }

  /** Loads an image mapped at `mapBase`: the result is that of decoding it. */
  method Load(image: Bytes, mapBase: int, allocator: MemoryAllocator, tag: Tag, metrics: Byte -> Metric,
              shuffles: nat -> IvfModel.Shuffle) returns (r: Result<Collection>)
    requires allocator.Valid() && TagBlocks(allocator.live, tag) == {}
    requires mapBase >= allocator.capacity || mapBase + |image| <= 0
    requires forall seed :: IvfModel.Permutes(shuffles(seed))
    ensures Mirrors(r, Decode(image), metrics, allocator)
    ensures r.Success? ==> r.value.tag == tag && r.value.shuffles == shuffles
    ensures r.Success? ==> Shuffled(r.value.index, shuffles)
    ensures r.Success? ==> fresh(r.value) && fresh(Objects(r.value.index))
  {
    hide ReadHeader, CrcOf, HeaderOk, DecodeBody, LoadedAs, LegalIndex, Collection.Valid, IvfModel.Permutes;
    if |image| < HEADER_SIZE {
      return Failure(SnapshotNotFound);
    }
    var parsed := ParseHeader(image);
    if parsed.None? {
      return Failure(SnapshotNotFound);
    }
    var h := parsed.value;
    if h.version != VERSION {
      return Failure(UnsupportedVersion);
    }
    var crc := Checksum(image[HEADER_SIZE..]);
    if crc != h.crc || !HeaderOk(h, |image|) {
      return Failure(Corruption);
    }
    r := LoadBody(image, h, mapBase, allocator, tag, metrics, shuffles);
  }

  lemma HeaderBounds(image: Bytes, h: Header)
    requires |image| >= HEADER_SIZE && HeaderOk(h, |image|)
    ensures HEADER_SIZE + h.nameLength <= |image| && h.indexOff + h.indexLen <= |image| && h.indexType <= 2
    ensures h.vectorOff >= HEADER_SIZE
  {
  }

  /** The body behind a header that passed its checks. */
  method LoadBody(image: Bytes, h: Header, mapBase: int, allocator: MemoryAllocator, tag: Tag, metrics: Byte -> Metric,
                  shuffles: nat -> IvfModel.Shuffle) returns (r: Result<Collection>)
    requires |image| >= HEADER_SIZE && HeaderOk(h, |image|)
    requires allocator.Valid() && TagBlocks(allocator.live, tag) == {}
    requires mapBase >= allocator.capacity || mapBase + |image| <= 0
    requires forall seed :: IvfModel.Permutes(shuffles(seed))
    ensures Mirrors(r, DecodeBody(image, h), metrics, allocator)
    ensures r.Success? ==> r.value.tag == tag && r.value.shuffles == shuffles
    ensures r.Success? ==> Shuffled(r.value.index, shuffles)
    ensures r.Success? ==> fresh(r.value) && fresh(Objects(r.value.index))
  {
    hide HeaderOk, ReadBody, RecordsIn, LoadedFrom, IndexOk, VectorsIn, LoadedAs, LegalIndex, Collection.Valid,
      TagBlocks,
      IvfModel.Permutes;
    HeaderBounds(image, h);
    var slots := ParseBody(image, h);
    if slots.None? {
      return Failure(Corruption);
    }
    var l := LoadedFrom(image, h, slots.value);
    LoadedFields(image, h, slots.value);
    r := Assemble(image, h, slots.value, l, mapBase, allocator, tag, metrics(h.metric), shuffles);
    if r.Success? {
      LoadedValid(r.value, l, metrics(h.metric), allocator);
    }
  }

  lemma DecodedLengths(image: Bytes, h: Header, slots: map<RecordId, Slot>)
    requires HeaderOk(h, |image|) && forall id | id in slots :: slots[id].vectorIndex < h.recordCount
    ensures forall id | id in RecordsIn(image, h, slots) :: |RecordsIn(image, h, slots)[id].vector| == h.dimensionality
  {
    hide SlotVector, HeaderOk;
    forall id | id in slots ensures |SlotVector(image, h, slots[id])| == h.dimensionality {
      SlotLength(image, h, slots[id]);
    }
  }

  lemma SlotLength(image: Bytes, h: Header, slot: Slot)
    requires HeaderOk(h, |image|) && slot.vectorIndex < h.recordCount
    ensures |SlotVector(image, h, slot)| == h.dimensionality
  {
    hide VectorAt;
    StrideInside(slot.vectorIndex, h.recordCount, 4 * h.dimensionality);
    VectorAtLength(image[h.vectorOff + slot.vectorIndex * (4 * h.dimensionality)..], h.dimensionality);
  }

  /** Rebuilds the index and installs the decoded state in a new collection. */
  method Assemble(image: Bytes, h: Header, slots: map<RecordId, Slot>, l: Loaded, mapBase: int,
                  allocator: MemoryAllocator,
                  tag: Tag, metric: Metric, shuffles: nat -> IvfModel.Shuffle) returns (r: Result<Collection>)
    requires HeaderOk(h, |image|) && forall id | id in slots :: id != [] && slots[id].vectorIndex < h.recordCount
    requires l.records == RecordsIn(image, h, slots) && l.config.dimensionality == h.dimensionality
    requires l.indexType == h.indexType
    requires allocator.Valid() && TagBlocks(allocator.live, tag) == {}
    requires mapBase >= allocator.capacity || mapBase + |image| <= 0
    requires forall seed :: IvfModel.Permutes(shuffles(seed))
    ensures r.Failure? ==> r.category == Corruption
    ensures r.Success? <==> IndexOk(l.indexType, l.region, VectorsIn(l.records))
    ensures r.Success? ==> LoadedAs(r.value, l, metric, allocator)
    ensures r.Success? ==> r.value.tag == tag && r.value.shuffles == shuffles
    ensures r.Success? ==> Shuffled(r.value.index, shuffles)
    ensures r.Success? ==> fresh(r.value) && fresh(Objects(r.value.index))
  {
    DecodedLengths(image, h, slots);
    HeaderBounds(image, h);
    assert forall id | id in l.records :: id in slots;
    hide HeaderOk, RecordsIn, IndexOk, VectorsIn, RebuiltIndex, LoadedAs, TagBlocks;
    var rebuilt := RebuildIndex(l, metric, shuffles);
    if rebuilt.None? {
      return Failure(Corruption);
    }
    var c := Mount(image, h, slots, l, mapBase, allocator, tag, metric, shuffles, rebuilt.value);
    r := Success(c);
  }

  /** The collection object over the mapping. */
  method Mount(image: Bytes, h: Header, slots: map<RecordId, Slot>, l: Loaded, mapBase: int, allocator: MemoryAllocator,
               tag: Tag, metric: Metric, shuffles: nat -> IvfModel.Shuffle, index: Index) returns (c: Collection)
    requires HeaderOk(h, |image|) && forall id | id in slots :: id != [] && slots[id].vectorIndex < h.recordCount
    requires l.records == RecordsIn(image, h, slots) && l.config.dimensionality == h.dimensionality
    requires allocator.Valid() && TagBlocks(allocator.live, tag) == {}
    requires mapBase >= allocator.capacity || mapBase + |image| <= 0
    requires RebuiltIndex(index, l, metric) && forall seed :: IvfModel.Permutes(shuffles(seed))
    ensures LoadedAs(c, l, metric, allocator) && c.tag == tag && c.index == index && fresh(c)
    ensures c.shuffles == shuffles
  {
    hide HeaderOk, RecordsIn, TagBlocks, TiledBy, AccountedBy, Housed, Contents, MappedSlots, HnswPersist.Loads,
      HnswFormat.ReadRegion, FromLE;
    ghost var s := Space(allocator.capacity, allocator.memory, mapBase, image);
    MappedHouse(s, allocator.live, tag, h, slots);
    c := new Collection.Mapped(l.config, allocator, tag, metric, shuffles, mapBase, image,
                               MappedSlots(h, slots, mapBase), index);
    assert c.AddressSpace() == s;
    assert c.Stored() == l.records;
    assert c.Sound({});
    assert RebuiltIndex(c.index, l, metric);
  }

  lemma LoadedFields(image: Bytes, h: Header, slots: map<RecordId, Slot>)
    requires |image| >= HEADER_SIZE && HeaderOk(h, |image|)
    ensures var l := LoadedFrom(image, h, slots);
      && l.records == RecordsIn(image, h, slots) && l.config.dimensionality == h.dimensionality
      && l.config.metric == h.metric
      && l.indexType == h.indexType
  {
    hide RecordsIn;
  }

  /** The directory behind the name; None when it is malformed or overruns the vector region. */
  method ParseBody(image: Bytes, h: Header) returns (slots: Option<map<RecordId, Slot>>)
    requires |image| >= HEADER_SIZE && HeaderOk(h, |image|)
    ensures slots == ReadBody(image, h)
    ensures slots.Some? ==> forall id | id in slots.value :: id != [] && slots.value[id].vectorIndex < h.recordCount
  {
    hide HeaderOk, ReadDirectory, ReadBody;
    HeaderBounds(image, h);
    SliceOfSuffix(image, HEADER_SIZE, h.nameLength);
    var r := new ByteReader(image[HEADER_SIZE..]);
    var name := r.GetRaw(h.nameLength);
    ghost var rest := r.Rest();
    assert rest == image[HEADER_SIZE + h.nameLength..];
    BodyRead(image, h);
    var ok, parsed := ParseDirectory(r, h.recordCount);
    if !ok {
      return None;
    }
    DirectoryEntries(rest, h.recordCount, h.recordCount, map[]);
    if r.pos > h.vectorOff - HEADER_SIZE {
      return None;
    }
    return Some(parsed);
  }

  lemma BodyRead(image: Bytes, h: Header)
    requires |image| >= HEADER_SIZE && HeaderOk(h, |image|)
    ensures ReadBody(image, h) ==
      match ReadDirectory(image[HEADER_SIZE + h.nameLength..], h.recordCount, h.recordCount, map[])
      case None => None
      case Some(dir) => if |image| - |dir.1| > h.vectorOff then None else Some(dir.0)
  {
    hide HeaderOk, ReadDirectory;
  }
}
