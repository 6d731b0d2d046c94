/** The collection: a record store kept coherent with its allocator and its index. */
module Collections {
  import opened Ordering
  import opened Identifiers
  import opened Vectors
  import opened Errors
  import opened Arena
  import opened Allocator
  import opened SnapshotFormat
  import opened SnapshotLayout
  import opened SnapshotRoundTrip
  import opened RecordStore
  import opened Ranking
  import opened Indexing
  import HnswPersist
  import IvfModel
  import opened Hnsw
  import opened Ivf

  const MAX_BATCH: nat := 10000

  /** Index construction parameters, shared by both index types. */
  datatype IndexParams = IndexParams(m: nat, efConstruction: nat, nlist: nat, seed: nat)

  // ---------------------------------------------------------------- validation

  /** What validation reports for one record. */
  function RecordStatus(id: RecordId, vec: Vector, dim: nat): (s: Status)
    ensures s.Ok? <==> id != [] && |vec| == dim && forall i | 0 <= i < |vec| :: IsFinite(vec[i])
    ensures s == Error(InvalidIdentifier) <==> id == []
    ensures s == Error(DimensionMismatch) <==> id != [] && |vec| != dim
    ensures s == Error(InvalidValue) <==> id != [] && |vec| == dim && exists i | 0 <= i < |vec| :: !IsFinite(vec[i])
  {
    if id == [] then Error(InvalidIdentifier)
    else if |vec| != dim then Error(DimensionMismatch)
    else if !AllFinite(vec) then Error(InvalidValue)
    else Ok
  }

  /** The first invalid record determines the error of a batch. */
  function BatchStatus(inputs: seq<Record>, dim: nat): (s: Status)
    ensures s.Ok? <==> forall i | 0 <= i < |inputs| :: RecordStatus(inputs[i].id, inputs[i].vector, dim).Ok?
    ensures s.Error? ==> exists i | 0 <= i < |inputs| ::
      (RecordStatus(inputs[i].id, inputs[i].vector, dim) == s
       && forall j | 0 <= j < i :: RecordStatus(inputs[j].id, inputs[j].vector, dim).Ok?)
  {
    if inputs == [] then Ok
    else
      var n := |inputs| - 1;
      var before := BatchStatus(inputs[..n], dim);
      if before.Error? then before else RecordStatus(inputs[n].id, inputs[n].vector, dim)
  }

  /** Parameters are checked before any index is made; the range of nlist depends on the record count. */
  function BuildStatus(indexType: Byte, params: IndexParams, count: nat): (s: Status)
    ensures s.Ok? <==> || (indexType == 1 && params.m >= 2 && params.efConstruction >= 1)
                       || (indexType == 2 && params.nlist <= count) || (indexType == 2 && params.nlist == 0)
    ensures s == Error(InvalidArgument) <==> indexType == 0 || indexType > 2
    ensures s.Error? && 1 <= indexType <= 2 ==> s == Error(InvalidParameter)
  {
    if indexType == 1 then
      (if params.m < 2 || params.efConstruction < 1 then Error(InvalidParameter) else Ok)
    else if indexType == 2 then
      (if params.nlist != 0 && params.nlist > count then Error(InvalidParameter) else Ok)
    else Error(InvalidArgument)
  }

  /** Index of the first non-finite component, or the length when all are finite. */
  method FirstNonFinite(vec: Vector) returns (i: nat)
    ensures i <= |vec| && (forall j | 0 <= j < i :: IsFinite(vec[j])) && (i < |vec| ==> !IsFinite(vec[i]))
  {
    i := 0;
    while i < |vec|
      invariant i <= |vec| && forall j | 0 <= j < i :: IsFinite(vec[j])
    {
      if !IsFinite(vec[i]) {
        return;
      }
      i := i + 1;
    }
  }

  method CheckRecord(id: RecordId, vec: Vector, dim: nat) returns (s: Status)
    ensures s == RecordStatus(id, vec, dim)
  {
    if id == [] {
      return Error(InvalidIdentifier);
    }
    if |vec| != dim {
      return Error(DimensionMismatch);
    }
    var bad := FirstNonFinite(vec);
    if bad != |vec| {
      return Error(InvalidValue);
    }
    return Ok;
  }

  method CheckBatch(inputs: seq<Record>, dim: nat) returns (s: Status)
    ensures s == BatchStatus(inputs, dim)
  {
    hide RecordStatus;
    s := Ok;
    for i := 0 to |inputs|
      invariant s.Ok? && BatchStatus(inputs[..i], dim) == s
    {
      s := CheckRecord(inputs[i].id, inputs[i].vector, dim);
      assert inputs[..i + 1][..i] == inputs[..i];
      if s.Error? {
        FirstError(inputs, dim, i);
        return;
      }
    }
    assert inputs[..|inputs|] == inputs;
  }

  /** An error in a prefix of the batch is the error of the batch. */
  lemma {:induction false} FirstError(inputs: seq<Record>, dim: nat, i: nat)
    requires i < |inputs| && BatchStatus(inputs[..i + 1], dim).Error?
    ensures BatchStatus(inputs, dim) == BatchStatus(inputs[..i + 1], dim)
    decreases |inputs|
  {
    hide RecordStatus;
    var n := |inputs| - 1;
    if i < n {
      assert inputs[..n][..i + 1] == inputs[..i + 1];
      FirstError(inputs[..n], dim, i);
      hide BatchStatus;
      EarlierError(inputs, dim);
    } else {
      assert inputs[..i + 1] == inputs;
    }
  }

  lemma EarlierError(inputs: seq<Record>, dim: nat)
    requires inputs != [] && BatchStatus(inputs[..|inputs| - 1], dim).Error?
    ensures BatchStatus(inputs, dim) == BatchStatus(inputs[..|inputs| - 1], dim)
  {
    hide RecordStatus;
  }

  // ---------------------------------------------------------------- what the operations do

  /** Everything an operation may change: the records as read through their pointers, the allocator's live and free
      blocks and running totals, the index, and what other tags hold in the shared arena. */
  datatype State = State(stored: map<RecordId, SnapshotLayout.Stored>, accounts: Accounts, kind: IndexKind,
                         index: IndexState, foreign: map<nat, Held>)

  /** The allocator's live blocks, free list and totals; what it reports for a tag is a function of the live blocks. */
  datatype Accounts = Accounts(live: LiveMap, free: seq<Span>, bytes: nat, blocks: nat)

  /** An insert stores the record; it fails on invalid input or an arena without room, and then changes nothing. */
  ghost predicate InsertStep(a: State, id: RecordId, vec: Vector, meta: Option<Metadata>, level: nat, dim: nat,
                             metric: Metric, capacity: nat, s: Status, b: State) {
    && s == (if RecordStatus(id, vec, dim).Error? then RecordStatus(id, vec, dim)
             else if NoFit(capacity, a.accounts.live, VectorFootprint(dim)) then Error(AllocationFailure) else Ok)
    && b.foreign == a.foreign
    && if s.Error? then b == a
       else
         && b.stored == a.stored[id := SnapshotLayout.Stored(vec, meta)]
         && b.kind == a.kind && IndexAdded(a.kind, dim, metric, a.index, id, vec, level, b.index)
  }

  /** Records are added to an index one after the other, each at its own level. */
  ghost predicate IndexFilled(kind: IndexKind, dim: nat, metric: Metric, a: IndexState, recs: seq<Record>,
                              levels: nat -> nat, b: IndexState)
    decreases |recs|
  {
    if recs == [] then b == a
    else
      var n := |recs| - 1;
      exists mid :: IndexFilled(kind, dim, metric, a, recs[..n], levels, mid)
                    && IndexAdded(kind, dim, metric, mid, recs[n].id, recs[n].vector, levels(n), b)
  }

  lemma FilledNone(kind: IndexKind, dim: nat, metric: Metric, a: IndexState, levels: nat -> nat)
    ensures forall none: seq<Record> | none == [] :: IndexFilled(kind, dim, metric, a, none, levels, a)
  {
  }

  lemma FilledSnoc(kind: IndexKind, dim: nat, metric: Metric, a: IndexState, recs: seq<Record>, i: nat,
                   levels: nat -> nat, mid: IndexState, b: IndexState)
    requires i < |recs| && IndexFilled(kind, dim, metric, a, recs[..i], levels, mid)
    requires IndexAdded(kind, dim, metric, mid, recs[i].id, recs[i].vector, levels(i), b)
    ensures IndexFilled(kind, dim, metric, a, recs[..i + 1], levels, b)
  {
    hide IndexAdded;
    assert recs[..i + 1][..i] == recs[..i];
  }

  /** A batch is all or nothing. It fails on its size, its first invalid record, or an arena without room for all of
      its blocks, and then changes nothing; otherwise it equals repeated single inserts. */
  ghost predicate BatchStep(a: State, inputs: seq<Record>, levels: nat -> nat, tag: Tag, dim: nat, metric: Metric,
                            capacity: nat, s: Status, b: State) {
    && s == (if inputs == [] || |inputs| > 10000 then Error(InvalidArgument)
             else if BatchStatus(inputs, dim).Error? then BatchStatus(inputs, dim)
             else if Room(capacity, a.accounts.live, VectorAlloc(dim, tag), |inputs|) then Ok
             else Error(AllocationFailure))
    && b.foreign == a.foreign
    && if s.Error? then b == a
       else
         && b.stored == InsertAll(a.stored, inputs)
         && b.kind == a.kind && IndexFilled(a.kind, dim, metric, a.index, inputs, levels, b.index)
  }

  /** A removal drops the record; it fails on an unknown id, and then changes nothing. */
  ghost predicate RemoveStep(a: State, id: RecordId, s: Status, b: State) {
    && s == (if id in a.stored then Ok else Error(NotFound))
    && b.foreign == a.foreign
    && if s.Error? then b == a
       else
         && b.stored == a.stored - {id} && b.accounts.live.Keys <= a.accounts.live.Keys
         && b.kind == a.kind && IndexRemoved(a.index, id, b.index)
  }

  /** What validation reports for a query. */
  function QueryStatus(q: Vector, k: nat, dim: nat): (s: Status)
    ensures s.Ok? <==> k >= 1 && |q| == dim && forall i | 0 <= i < |q| :: IsFinite(q[i])
    ensures s == Error(InvalidArgument) <==> k == 0
    ensures s == Error(DimensionMismatch) <==> k >= 1 && |q| != dim
    ensures s.Error? && k >= 1 && |q| == dim ==> s == Error(InvalidValue)
  {
    if k < 1 then Error(InvalidArgument)
    else if |q| != dim then Error(DimensionMismatch)
    else if !AllFinite(q) then Error(InvalidValue)
    else Ok
  }

  /** The kind of index a valid request asks for. */
  function RequestedKind(indexType: Byte, params: IndexParams, shuffles: nat -> IvfModel.Shuffle): (kind: IndexKind)
    ensures indexType == 1 ==> kind.GraphKind? && kind.m == params.m && kind.efConstruction == params.efConstruction
    ensures indexType == 2 ==> kind.FileKind? && kind.nlist == params.nlist && kind.shuffle == shuffles(params.seed)
    ensures !kind.Unindexed? && kind.seed == params.seed
  {
    if indexType == 1 then GraphKind(params.m, params.efConstruction, params.seed)
    else FileKind(params.nlist, params.seed, shuffles(params.seed))
  }

  /** An index of the given kind before anything is added to it. */
  ghost predicate NothingIndexed(kind: IndexKind, a: IndexState) {
    match kind
    case Unindexed => a == Absent
    case GraphKind(_, _, _) =>
      a.GraphState? && a.graph.nodes == [] && a.graph.ids == map[] && a.graph.entryPoint == -1
      && a.graph.maxLevel == -1 && a.graph.liveCount == 0
    case FileKind(_, _, _) => a.FileState? && a.entries == [] && a.ids == map[] && a.liveCount == 0 && a.dirty
  }

  /** Building an index replaces the index by one of the requested kind and parameters to which the stored records were
      added in id order, and nothing else; a rejected request changes nothing. */
  ghost predicate BuildStep(a: State, indexType: Byte, params: IndexParams, levels: nat -> nat, dim: nat,
                            metric: Metric, shuffles: nat -> IvfModel.Shuffle, s: Status, b: State) {
    && s == BuildStatus(indexType, params, |a.stored|)
    && if s.Error? then b == a
       else
         && b == a.(kind := RequestedKind(indexType, params, shuffles), index := b.index)
         && IndexBuilt(b.kind, dim, metric, RecordList(a.stored), levels, b.index)
  }

  ghost predicate IndexBuilt(kind: IndexKind, dim: nat, metric: Metric, recs: seq<Record>, levels: nat -> nat,
                             b: IndexState) {
    exists none :: NothingIndexed(kind, none) && IndexFilled(kind, dim, metric, none, recs, levels, b)
  }

  /** A query answers from the records and changes none of them, nor anything in the arena; when the search is `exact`
      the answer is the k nearest. An index is asked unless every record is to be returned, and what it offers is ranked
      again by exact distance. */
  ghost predicate QueryStep(a: State, q: Vector, k: nat, efSearch: nat, nprobe: nat, dim: nat, metric: Metric,
                            exact: bool, r: Result<seq<Candidate>>, b: State) {
    && b == a.(index := b.index)
    && match r
       case Failure(category) => QueryStatus(q, k, dim) == Error(category) && b == a
       case Success(found) =>
         && QueryStatus(q, k, dim).Ok?
         && Answered(a.kind, a.index, VectorsIn(a.stored), q, k, efSearch, nprobe, dim, metric, exact, found, b.index)
  }

  /** What a query answers from the records and their index, and what becomes of the index. */
  ghost predicate Answered(kind: IndexKind, before: IndexState, vectors: map<RecordId, Vector>, q: Vector, k: nat,
                           efSearch: nat, nprobe: nat, dim: nat, metric: Metric, exact: bool, out: seq<Candidate>,
                           after: IndexState) {
    && IndexKept(before, after) && Answers(out, vectors, metric, q, k)
    && (exact || before.Absent? || k >= |vectors| ==> NearestK(out, vectors, metric, q, k))
    && (!before.Absent? && k < |vectors| ==>
          Assisted(kind, before, vectors, q, k, efSearch, nprobe, dim, metric, out))
  }

  /** The answer that re-ranking the candidates of the index gives. */
  ghost predicate Assisted(kind: IndexKind, index: IndexState, vectors: map<RecordId, Vector>, q: Vector, k: nat,
                           efSearch: nat, nprobe: nat, dim: nat, metric: Metric, out: seq<Candidate>) {
    exists candidates ::
      IndexSearched(kind, dim, metric, index, q, k, efSearch, nprobe, candidates)
      && RerankedFrom(out, candidates, vectors, metric, q, k)
  }

  // ---------------------------------------------------------------- the collection

  class Collection {
    const config: Config
    const allocator: MemoryAllocator
    const tag: Tag

    /** The distance calculator under the collection's metric. */
    const metric: Metric

    /** std::shuffle under a generator of the given seed. */
    const shuffles: nat -> IvfModel.Shuffle

    /** The file mapping of a loaded collection and its address relative to the arena. */
    const mapBase: int
    const mapping: Bytes

    var records: map<RecordId, RecordSlot>
    var recordCount: nat
    var index: Index

    function Dim(): nat { config.dimensionality }

    function AddressSpace(): Space
      reads allocator
    {
      Space(allocator.capacity, allocator.memory, mapBase, mapping)
    }

    /** What the collection stores, as read through its block pointers. */
    function Stored(): map<RecordId, SnapshotLayout.Stored>
      reads this`records, allocator
    {
      Contents(AddressSpace(), records, Dim())
    }

    function Ledger(): Accounts
      reads allocator
    {
      Accounts(allocator.live, allocator.freeByOffset, allocator.totalAllocatedBytes, allocator.liveBlockCount)
    }

    function Now(): State
      reads this, allocator, Objects(index)
    {
      State(Stored(), Ledger(), KindOf(index), StateOf(index), Foreign())
    }

    /** What other tags hold in the shared arena. */
    function Foreign(): map<nat, Held>
      reads allocator
    {
      ForeignBlocks(allocator.live, allocator.memory, tag)
    }

    lemma NowForeign()
      ensures Now().foreign == ForeignBlocks(allocator.live, allocator.memory, tag)
    {
      hide ForeignBlocks, Stored, StateOf;
    }

    /** Store and allocator agree, with some further blocks staged. */
    ghost predicate Sound(staged: set<nat>)
      reads this`records, this`recordCount, allocator
    {
      && allocator.Valid() && GoodSpace(AddressSpace())
      && Housed(AddressSpace(), allocator.live, tag, Dim(), records, staged)
      && recordCount == |records|
    }

    /** Store, allocator and index agree. */
    ghost predicate Valid()
      reads this, allocator, Objects(index)
    {
      Sound({}) && Holds(index, VectorsIn(Stored()), Dim(), metric) && Seeded()
    }

    ghost predicate Seeded() { forall seed :: IvfModel.Permutes(shuffles(seed)) }

    /** The parts of the invariant, for callers that keep it folded. */
    lemma Opened()
      requires Valid()
      ensures Sound({}) && Holds(index, VectorsIn(Stored()), Dim(), metric) && Seeded() && 1 <= Dim() <= 65536
      ensures Stored().Keys == records.Keys && recordCount == |records|
    {
    }

    /** An empty in-memory collection under a tag that owns nothing yet. */
    constructor (config: Config, allocator: MemoryAllocator, tag: Tag, metric: Metric,
                 shuffles: nat -> IvfModel.Shuffle)
      requires allocator.Valid() && 1 <= config.dimensionality <= 65536 && TagBlocks(allocator.live, tag) == {}
      requires forall seed :: IvfModel.Permutes(shuffles(seed))
      ensures Valid() && Stored() == map[] && index == NoIndex
      ensures this.config == config && this.allocator == allocator && this.tag == tag && this.metric == metric
      ensures this.shuffles == shuffles
    {
      this.config, this.allocator, this.tag, this.metric, this.shuffles := config, allocator, tag, metric, shuffles;
      mapBase, mapping := allocator.capacity, [];
      records, recordCount, index := map[], 0, NoIndex;
      new;
      EmptyHouse(AddressSpace(), allocator.live, tag, Dim());
    }

    /** A loaded collection: its records point into the file mapping, and its index was rebuilt by the loader. */
    constructor Mapped(config: Config, allocator: MemoryAllocator, tag: Tag, metric: Metric,
                       shuffles: nat -> IvfModel.Shuffle,
                       mapBase: int, mapping: Bytes, records: map<RecordId, RecordSlot>, index: Index)
      requires allocator.Valid() && GoodSpace(Space(allocator.capacity, allocator.memory, mapBase, mapping))
      requires Housed(Space(allocator.capacity, allocator.memory, mapBase, mapping), allocator.live, tag,
                      config.dimensionality, records, {})
      ensures Sound({}) && this.records == records && this.index == index
      ensures this.config == config && this.allocator == allocator && this.tag == tag && this.metric == metric
      ensures this.shuffles == shuffles && this.mapBase == mapBase && this.mapping == mapping
    {
      this.config, this.allocator, this.tag, this.metric, this.shuffles := config, allocator, tag, metric, shuffles;
      this.mapBase, this.mapping, this.records, this.recordCount, this.index :=
        mapBase, mapping, records, |records|, index;
    }

    lemma SmallVectors(staged: set<nat>)
      requires Sound(staged)
      ensures 1 <= Dim() <= 65536 && BlocksLaidOut(allocator.capacity, allocator.live)
    {
      TilingLaysOut(allocator.capacity, allocator.freeByOffset, allocator.live);
    }

    /** Allocates a block and copies the components into it; nothing changes when the arena is exhausted. */
    method StageVector(vec: Vector, ghost staged: set<nat>) returns (r: AllocResult, ghost o: nat)
      requires Sound(staged) && |vec| == Dim()
      modifies allocator
      ensures 1 <= Dim() <= 65536
      ensures r.Exhausted? <==> NoFit(allocator.capacity, old(allocator.live), VectorFootprint(Dim()))
      ensures r.Exhausted? ==> unchanged(allocator)
      ensures Foreign() == old(Foreign())
      ensures r.Granted? ==>
        && r.block == Block(At(o), 4 * Dim())
        && TookLowest(allocator.capacity, old(allocator.live), VectorAlloc(Dim(), tag), o, allocator.live)
        && Wrote(old(allocator.memory), o / 4, vec, allocator.memory)
        && o !in staged && Sound(staged + {o}) && Stored() == old(Stored())
    {
      hide Sound, Stored, NoFit, TookLowest, Wrote, VectorAlloc, AddressSpace, Foreign;
      SmallVectors(staged);
      r, o := TakeBlock(staged);
      if r.Exhausted? {
        return;
      }
      WriteVector(r.block, vec, o, staged + {o});
    }

    /** Allocates the block of one vector. */
    method TakeBlock(ghost staged: set<nat>) returns (r: AllocResult, ghost o: nat)
      requires Sound(staged)
      modifies allocator
      ensures allocator.memory == old(allocator.memory)
      ensures r.Exhausted? <==> NoFit(allocator.capacity, old(allocator.live), VectorFootprint(Dim()))
      ensures r.Exhausted? ==> unchanged(allocator)
      ensures Foreign() == old(Foreign())
      ensures r.Granted? ==>
        && r.block == Block(At(o), 4 * Dim())
        && TookLowest(allocator.capacity, old(allocator.live), VectorAlloc(Dim(), tag), o, allocator.live)
        && o !in staged && Sound(staged + {o}) && Stored() == old(Stored())
    {
      hide Sound, Housed, Contents, GoodSpace, NoFit, LowestFit, TiledBy, AccountedBy, Footprint, BlocksLaidOut,
        ForeignBlocks, SizedBy;
      Unfolded(staged);
      o := 0;
      r := allocator.Allocate(4 * Dim(), tag);
      if r.Exhausted? {
        return;
      }
      o := r.block.data.displacement;
      FitFound(allocator.capacity, old(allocator.live), VectorFootprint(Dim()), o);
      StageBlock(AddressSpace(), old(allocator.live), tag, Dim(), records, staged, o);
      ForeignExtend(old(allocator.live), allocator.memory, tag, o, VectorAlloc(Dim(), tag));
      Folded(staged + {o});
    }

    /** The parts of a sound store, for callers that keep it folded. */
    lemma Unfolded(staged: set<nat>)
      requires Sound(staged)
      ensures allocator.Valid() && GoodSpace(AddressSpace()) && recordCount == |records| && 1 <= Dim() <= 65536
      ensures Housed(AddressSpace(), allocator.live, tag, Dim(), records, staged)
      ensures BlocksLaidOut(allocator.capacity, allocator.live)
    {
      SmallVectors(staged);
    }

    lemma Folded(staged: set<nat>)
      requires allocator.Valid() && GoodSpace(AddressSpace()) && recordCount == |records|
      requires Housed(AddressSpace(), allocator.live, tag, Dim(), records, staged)
      ensures Sound(staged)
    {
      hide Housed, GoodSpace, MemoryAllocator.Valid;
    }

    /** Copies the components into a staged block. */
    method WriteVector(block: Block, vec: Vector, ghost o: nat, ghost staged: set<nat>)
      requires Sound(staged) && o in staged && block == Block(At(o), 4 * Dim()) && |vec| == Dim()
      modifies allocator`memory
      ensures Sound(staged) && Stored() == old(Stored()) && Foreign() == old(Foreign())
      ensures Wrote(old(allocator.memory), o / 4, vec, allocator.memory)
    {
      hide Housed, Contents, GoodSpace, ReadBlock, TiledBy, AccountedBy, BlocksLaidOut, ForeignBlocks;
      TilingLaysOut(allocator.capacity, allocator.freeByOffset, allocator.live);
      WriteKeepsContents(AddressSpace(), allocator.live, tag, Dim(), records, staged, o, vec);
      SmallVectors(staged);
      StagedIsLive(AddressSpace(), allocator.live, tag, Dim(), records, staged, o);
      ForeignWrite(allocator.capacity, allocator.live, allocator.memory, tag, Dim(), o, vec);
      var cell: nat := block.data.displacement / 4;
      allocator.memory := WriteCells(allocator.memory, cell, vec);
    }

    /** Releases the block of a record; the others keep theirs. */
    method Unhouse(id: RecordId, ghost staged: set<nat>)
      requires Sound(staged) && id in records
      modifies allocator
      ensures allocator.Valid() && allocator.memory == old(allocator.memory) && Foreign() == old(Foreign())
      ensures Housed(AddressSpace(), allocator.live, tag, Dim(), records - {id}, staged)
      ensures BlocksLaidOut(allocator.capacity, allocator.live) && allocator.live.Keys <= old(allocator.live).Keys
    {
      hide Sound, Housed, GoodSpace, BlocksLaidOut, TiledBy, AccountedBy, Released, ForeignBlocks, SizedBy;
      Unfolded(staged);
      RemoveRecord(AddressSpace(), allocator.live, tag, Dim(), records, staged, id);
      ForeignOwned(AddressSpace(), allocator.live, tag, Dim(), records, staged, id);
      ReleasedLive(allocator.live, records[id].block);
      allocator.Release(records[id].block);
      TilingLaysOut(allocator.capacity, allocator.freeByOffset, allocator.live);
    }

    /** Makes a staged block the block of a record, releasing the one it replaces. */
    method Install(id: RecordId, block: Block, meta: Option<Metadata>, ghost o: nat, ghost staged: set<nat>)
      requires Sound(staged) && o in staged && block == Block(At(o), 4 * Dim()) && id != []
      modifies this`records, this`recordCount, allocator
      ensures Sound(staged - {o}) && allocator.memory == old(allocator.memory) && Foreign() == old(Foreign())
      ensures Stored() == old(Stored())[id := SnapshotLayout.Stored(old(ReadBlock(AddressSpace(), block, Dim())), meta)]
    {
      hide Sound, Housed, Contents, GoodSpace, ReadBlock, BlocksLaidOut, MemoryAllocator.Valid, Foreign;
      Unfolded(staged);
      ghost var rest := records - {id};
      ContentsUpdate(AddressSpace(), records, Dim(), id, RecordSlot(block, meta));
      WithoutThenWith(records, id, RecordSlot(block, meta));
      WithCount(records, id, RecordSlot(block, meta));
      if id in records {
        Unhouse(id, staged);
      } else {
        recordCount := recordCount + 1;
      }
      CommitBlock(AddressSpace(), allocator.live, tag, Dim(), rest, staged, id, o, meta);
      records := records[id := RecordSlot(block, meta)];
      Folded(staged - {o});
    }

    /** Inserts or overwrites one record; a rejected insert changes nothing. */
    method Insert(id: RecordId, vec: Vector, meta: Option<Metadata>, level: nat) returns (s: Status)
      requires Valid()
      modifies this, allocator, Objects(index)
      ensures Valid() && index == old(index)
      ensures InsertStep(old(Now()), id, vec, meta, level, Dim(), metric, allocator.capacity, s, Now())
    {
      hide Valid, NoFit, VectorFootprint, Now, RecordStatus, IndexAdded;
      s := CheckRecord(id, vec, Dim());
      if s.Error? {
        return;
      }
      StatusOk(id, vec, Dim());
      s := Put(id, vec, meta, level);
    }

    /** Stores a validated record: allocate, then replace or add, then index. */
    method Put(id: RecordId, vec: Vector, meta: Option<Metadata>, level: nat) returns (s: Status)
      requires Valid() && RecordStatus(id, vec, Dim()).Ok?
      modifies this, allocator, Objects(index)
      ensures Valid() && index == old(index)
      ensures InsertStep(old(Now()), id, vec, meta, level, Dim(), metric, allocator.capacity, s, Now())
    {
      hide Valid, Sound, Stored, Seeded, Holds, NoFit, VectorFootprint, VectorsIn, RecordStatus, Foreign, Now,
        InsertStep, IndexAdded, KindOf, StateOf;
      StatusOk(id, vec, Dim());
      Opened();
      NowParts();
      ghost var before, now := Stored(), Now();
      var ok := Place(id, vec, meta);
      if ok {
        IndexRecord(id, vec, level, before, SnapshotLayout.Stored(vec, meta));
        s := Ok;
      } else {
        s := Error(AllocationFailure);
      }
      NowParts();
      PutStep(now, id, vec, meta, level, Dim(), metric, allocator.capacity, ok, Now());
    }

    lemma NowParts()
      ensures Now().stored == Stored() && Now().accounts.live == allocator.live && Now().foreign == Foreign()
      ensures Now().kind == KindOf(index) && Now().index == StateOf(index)
    {
      hide Stored, Foreign, StateOf, KindOf;
    }

    /** Puts a record into the store. */
    method Place(id: RecordId, vec: Vector, meta: Option<Metadata>) returns (ok: bool)
      requires Sound({}) && id != [] && |vec| == Dim()
      modifies this`records, this`recordCount, allocator
      ensures ok == !NoFit(allocator.capacity, old(allocator.live), VectorFootprint(Dim()))
      ensures !ok ==> unchanged(this) && unchanged(allocator)
      ensures Foreign() == old(Foreign())
      ensures ok ==> Sound({}) && Stored() == old(Stored())[id := SnapshotLayout.Stored(vec, meta)]
    {
      hide Sound, Stored, AddressSpace, ReadBlock, NoFit, LowestFit, VectorFootprint, VectorAlloc, WriteCells, Foreign;
      var r, o := StageVector(vec, {});
      if r.Exhausted? {
        return false;
      }
      assert {} + {o} == {o} && {o} - {o} == {};
      StagedReadsBack(o, vec, old(allocator.memory));
      Install(id, r.block, meta, o, {o});
      ok := true;
    }

    /** Passes a stored record on to the index. */
    method IndexRecord(id: RecordId, vec: Vector, level: nat, ghost before: map<RecordId, SnapshotLayout.Stored>,
                       ghost added: SnapshotLayout.Stored)
      requires Sound({}) && Seeded() && Holds(index, VectorsIn(before), Dim(), metric)
      requires Stored() == before[id := added] && added.vector == vec && id != [] && |vec| == Dim()
      modifies Objects(index)
      ensures Valid() && Stored() == old(Stored())
      ensures IndexAdded(KindOf(index), Dim(), metric, old(StateOf(index)), id, vec, level, StateOf(index))
    {
      hide Sound, Seeded, Stored, Holds, VectorsIn, IndexAdded, KindOf, StateOf;
      VectorsUpdate(before, id, added);
      AddTo(index, id, vec, level, VectorsIn(before), Dim(), metric);
    }

    lemma StagedReadsBack(o: nat, vec: Vector, before: seq<Float32>)
      requires Sound({o}) && |vec| == Dim() && 1 <= Dim() <= 65536
      requires o in allocator.live && allocator.live[o] == VectorAlloc(Dim(), tag)
      requires o / 4 + |vec| <= |before| && allocator.memory == WriteCells(before, o / 4, vec)
      ensures ReadBlock(AddressSpace(), Block(At(o), 4 * Dim()), Dim()) == vec
    {
      TilingLaysOut(allocator.capacity, allocator.freeByOffset, allocator.live);
      CellsInside(allocator.capacity, allocator.live, tag, Dim(), o);
      CellsElsewhere(before, o / 4, vec, 0, 0);
    }

    /** Inserts a batch atomically. */
    method InsertBatch(inputs: seq<Record>, levels: nat -> nat) returns (s: Status)
      requires Valid()
      modifies this, allocator, Objects(index)
      ensures Valid() && index == old(index)
      ensures BatchStep(old(Now()), inputs, levels, tag, Dim(), metric, allocator.capacity, s, Now())
    {
      hide Valid, Room, VectorAlloc, Now, BatchStatus, InsertAll, IndexFilled;
      if |inputs| == 0 || |inputs| > MAX_BATCH {
        return Error(InvalidArgument);
      }
      s := CheckBatch(inputs, Dim());
      if s.Error? {
        return;
      }
      s := PutAll(inputs, levels);
    }

    /** Stores a validated batch: stage every block, then commit them one by one. */
    method PutAll(inputs: seq<Record>, levels: nat -> nat) returns (s: Status)
      requires Valid() && 0 < |inputs| <= MAX_BATCH && BatchStatus(inputs, Dim()).Ok?
      modifies this, allocator, Objects(index)
      ensures Valid() && index == old(index)
      ensures BatchStep(old(Now()), inputs, levels, tag, Dim(), metric, allocator.capacity, s, Now())
    {
      hide Valid, Sound, Stored, AddressSpace, Seeded, Holds, StateOf, Room, VectorAlloc, VectorsIn, StagedBlocks,
        RecordStatus, Foreign, IndexFilled, KindOf;
      BatchOk(inputs, Dim());
      Opened();
      var ok, blocks, offs := StageAll(inputs);
      hide BatchStatus;
      if !ok {
        Reopened();
        return Error(AllocationFailure);
      }
      CommitAll(inputs, blocks, offs, levels);
      s := Ok;
    }

    lemma Reopened()
      requires Sound({}) && Seeded() && Holds(index, VectorsIn(Stored()), Dim(), metric)
      ensures Valid()
    {
      hide Sound, Seeded, Holds, VectorsIn, Stored;
    }

    lemma AccountsHold(staged: set<nat>)
      requires Sound(staged)
      ensures Balanced(allocator.capacity, Ledger()) && |AddressSpace().memory| == AddressSpace().capacity / 4
    {
      hide Housed, TiledBy, Sum;
    }

    /** Stages a block for every record of the batch, or none. */
    method StageAll(inputs: seq<Record>) returns (ok: bool, blocks: seq<Block>, ghost offs: seq<nat>)
      requires Sound({}) && forall i | 0 <= i < |inputs| :: |inputs[i].vector| == Dim()
      modifies allocator
      ensures ok == Room(allocator.capacity, old(allocator.live), VectorAlloc(Dim(), tag), |inputs|)
      ensures Stored() == old(Stored()) && Sound(if ok then Elements(offs) else {}) && Foreign() == old(Foreign())
      ensures ok ==> StagedBlocks(AddressSpace(), allocator.live, tag, Dim(), blocks, offs, inputs)
      ensures !ok ==> Ledger() == old(Ledger())
    {
      hide Sound, Stored, AddressSpace, Room, VectorAlloc, StagedBlocks, WriteCells, LowestFit, NoFit, Balanced,
        Foreign;
      ghost var live0, ledger0, r0, n := allocator.live, Ledger(), VectorAlloc(Dim(), tag), |inputs|;
      AccountsHold({});
      blocks, offs := [], [];
      ExtendedSnoc(live0, [], r0, 0);
      assert Elements<nat>([]) == {};
      NoneStaged(inputs[..0]);
      for i := 0 to |inputs|
        invariant |blocks| == |offs| == i && Sound(Elements(offs)) && Stored() == old(Stored())
        invariant Foreign() == old(Foreign())
        invariant allocator.live == Extended(live0, offs, r0) && Elements(offs) !! live0.Keys
        invariant StagedBlocks(AddressSpace(), allocator.live, tag, Dim(), blocks, offs, inputs[..i])
        invariant Room(allocator.capacity, live0, r0, n) == Room(allocator.capacity, allocator.live, r0, n - i)
      {
        ghost var before := allocator.live;
        var granted, block, o := StageNext(inputs[i], blocks, offs, inputs[..i]);
        if !granted {
          NoRoom(allocator.capacity, before, r0, n - i);
          Rollback(blocks, offs, live0, inputs[..i]);
          AccountsHold({});
          SameLedger(allocator.capacity, ledger0, Ledger());
          return false, [], [];
        }
        RoomStep(allocator.capacity, before, r0, n - i, o);
        ExtendedSnoc(live0, offs, r0, o);
        assert Elements(offs + [o]) == Elements(offs) + {o};
        assert inputs[..i + 1] == inputs[..i] + [inputs[i]];
        blocks, offs := blocks + [block], offs + [o];
      }
      assert inputs[..|inputs|] == inputs;
      ok := true;
      RoomForNone(allocator.capacity, allocator.live, r0);
    }

    lemma NoneStaged(none: seq<Record>)
      requires Sound({}) && none == []
      ensures StagedBlocks(AddressSpace(), allocator.live, tag, Dim(), [], [], none)
    {
    }

    /** Allocates and fills the block of one more record. */
    method StageNext(rec: Record, blocks: seq<Block>, ghost offs: seq<nat>, ghost done: seq<Record>)
        returns (granted: bool, block: Block, ghost o: nat)
      requires Sound(Elements(offs)) && |rec.vector| == Dim()
      requires StagedBlocks(AddressSpace(), allocator.live, tag, Dim(), blocks, offs, done)
      modifies allocator
      ensures Sound(Elements(offs + if granted then [o] else [])) && Stored() == old(Stored())
      ensures Foreign() == old(Foreign())
      ensures granted ==>
        && LowestFit(allocator.capacity, old(allocator.live), VectorAlloc(Dim(), tag).rounded, o)
        && o !in old(allocator.live)
        && allocator.live == old(allocator.live)[o := VectorAlloc(Dim(), tag)]
        && StagedBlocks(AddressSpace(), allocator.live, tag, Dim(), blocks + [block], offs + [o], done + [rec])
      ensures !granted ==>
        unchanged(allocator) && NoFit(allocator.capacity, allocator.live, VectorAlloc(Dim(), tag).rounded)
    {
      hide Sound, Stored, LowestFit, NoFit, StagedBlocks, VectorFootprint, WriteCells, Balanced, Foreign;
      AccountsHold(Elements(offs));
      granted, block := false, Block(Null, 0);
      var r, at := StageVector(rec.vector, Elements(offs));
      o := at;
      if r.Exhausted? {
        assert offs + [] == offs;
        return;
      }
      assert Elements(offs + [o]) == Elements(offs) + {o};
      granted, block := true, r.block;
      StillStaged(old(AddressSpace()), old(allocator.live), blocks, offs, done, o, rec);
    }

    lemma StillStaged(s: Space, live: LiveMap, blocks: seq<Block>, offs: seq<nat>, done: seq<Record>, o: nat,
                      rec: Record)
      requires StagedBlocks(s, live, tag, Dim(), blocks, offs, done) && |rec.vector| == Dim()
      requires Sound(Elements(offs + [o])) && o !in live && allocator.live == live[o := VectorAlloc(Dim(), tag)]
      requires o / 4 + Dim() <= |s.memory| && AddressSpace() == s.(memory := WriteCells(s.memory, o / 4, rec.vector))
      requires |s.memory| == s.capacity / 4
      ensures StagedBlocks(AddressSpace(), allocator.live, tag, Dim(), blocks + [Block(At(o), 4 * Dim())], offs + [o],
                           done + [rec])
    {
      SmallVectors(Elements(offs + [o]));
      hide Housed, ReadBlock, TiledBy, AccountedBy, WriteCells, BlocksLaidOut, VectorFootprint;
      assert StagedBlocks(s, allocator.live, tag, Dim(), blocks, offs, done);
      assert o !in offs;
      hide StagedBlocks;
      StageWritten(s, allocator.live, tag, Dim(), blocks, offs, done, o, rec);
    }

    /** Gives one staged block back. */
    method GiveBack(block: Block, ghost o: nat, ghost staged: set<nat>)
      requires Sound(staged) && o in staged && block.data == At(o)
      modifies allocator
      ensures Sound(staged - {o}) && allocator.memory == old(allocator.memory) && Stored() == old(Stored())
      ensures allocator.live == old(allocator.live) - {o} && Foreign() == old(Foreign())
    {
      hide Housed, Contents, GoodSpace, TiledBy, AccountedBy, ForeignBlocks;
      UnstageBlock(AddressSpace(), allocator.live, tag, Dim(), records, staged, o);
      StagedIsLive(AddressSpace(), allocator.live, tag, Dim(), records, staged, o);
      ForeignRelease(allocator.live, allocator.memory, tag, block);
      ReleasedLive(allocator.live, block);
      allocator.Release(block);
    }

    /** Gives every staged block back: the allocator is as it was before the batch. */
    method Rollback(blocks: seq<Block>, ghost offs: seq<nat>, ghost live0: LiveMap, ghost done: seq<Record>)
      requires Sound(Elements(offs)) && Elements(offs) !! live0.Keys
      requires StagedBlocks(AddressSpace(), allocator.live, tag, Dim(), blocks, offs, done)
      requires allocator.live == Extended(live0, offs, VectorAlloc(Dim(), tag))
      modifies allocator
      ensures Sound({}) && Stored() == old(Stored()) && allocator.live == live0 && Foreign() == old(Foreign())
    {
      hide Sound, Stored, StagedBlocks, VectorAlloc, Extended, Distinct, Foreign, Elements, AddressSpace;
      StagedPlaces(blocks, offs, done);
      ghost var r0 := VectorAlloc(Dim(), tag);
      assert offs[0..] == offs;
      for i := 0 to |blocks|
        invariant Sound(Elements(offs[i..])) && Stored() == old(Stored())
        invariant allocator.live == Extended(live0, offs[i..], r0) && Foreign() == old(Foreign())
      {
        OneBack(live0, offs, r0, i);
        GiveBack(blocks[i], offs[i], Elements(offs[i..]));
      }
      NoneBack(live0, offs[|blocks|..], r0);
    }

    lemma StagedPlaces(blocks: seq<Block>, offs: seq<nat>, done: seq<Record>)
      requires StagedBlocks(AddressSpace(), allocator.live, tag, Dim(), blocks, offs, done)
      ensures |blocks| == |offs| && Distinct(offs) && forall i | 0 <= i < |blocks| :: blocks[i].data == At(offs[i])
    {
    }

    /** Makes every staged block the block of its record, in batch order. */
    method CommitAll(inputs: seq<Record>, blocks: seq<Block>, ghost offs: seq<nat>, levels: nat -> nat)
      requires Sound(Elements(offs)) && Seeded() && Holds(index, VectorsIn(Stored()), Dim(), metric)
      requires StagedBlocks(AddressSpace(), allocator.live, tag, Dim(), blocks, offs, inputs)
      requires forall i | 0 <= i < |inputs| :: inputs[i].id != [] && |inputs[i].vector| == Dim()
      modifies this`records, this`recordCount, allocator, Objects(index)
      ensures Valid() && Stored() == InsertAll(old(Stored()), inputs) && Foreign() == old(Foreign())
      ensures IndexFilled(KindOf(index), Dim(), metric, old(StateOf(index)), inputs, levels, StateOf(index))
    {
      hide Sound, Stored, AddressSpace, Seeded, Holds, VectorsIn, StagedBlocks, Foreign, IndexFilled, IndexAdded,
        KindOf, StateOf;
      ghost var before, index0 := Stored(), StateOf(index);
      FilledNone(KindOf(index), Dim(), metric, index0, levels);
      assert inputs[..0] == [] && inputs[0..] == inputs && blocks[0..] == blocks && offs[0..] == offs;
      SameLengths(blocks, offs, inputs);
      for i := 0 to |inputs|
        invariant Sound(Elements(offs[i..])) && Holds(index, VectorsIn(Stored()), Dim(), metric)
        invariant StagedBlocks(AddressSpace(), allocator.live, tag, Dim(), blocks[i..], offs[i..], inputs[i..])
        invariant Stored() == InsertAll(before, inputs[..i]) && Foreign() == old(Foreign())
        invariant IndexFilled(KindOf(index), Dim(), metric, index0, inputs[..i], levels, StateOf(index))
      {
        ghost var mid := StateOf(index);
        assert blocks[i..][0] == blocks[i] && inputs[i..][0] == inputs[i] && inputs[..i + 1][..i] == inputs[..i];
        assert blocks[i..][1..] == blocks[i + 1..] && offs[i..][1..] == offs[i + 1..];
        assert inputs[i..][1..] == inputs[i + 1..];
        CommitOne(inputs[i], blocks[i], levels(i), blocks[i..], offs[i..], inputs[i..]);
        FilledSnoc(KindOf(index), Dim(), metric, index0, inputs, i, levels, mid, StateOf(index));
      }
      assert inputs[..|inputs|] == inputs && Elements(offs[|inputs|..]) == {};
      Reopened();
    }

    lemma SameLengths(blocks: seq<Block>, offs: seq<nat>, inputs: seq<Record>)
      requires StagedBlocks(AddressSpace(), allocator.live, tag, Dim(), blocks, offs, inputs)
      ensures |blocks| == |offs| == |inputs|
    {
    }

    /** Commits the first of the blocks still staged. */
    method CommitOne(rec: Record, block: Block, level: nat, ghost blocks: seq<Block>, ghost offs: seq<nat>,
                     ghost left: seq<Record>)
      requires Sound(Elements(offs)) && Holds(index, VectorsIn(Stored()), Dim(), metric)
      requires StagedBlocks(AddressSpace(), allocator.live, tag, Dim(), blocks, offs, left)
      requires left != [] && blocks != [] && rec == left[0] && block == blocks[0] && rec.id != []
      requires |rec.vector| == Dim()
      modifies this`records, this`recordCount, allocator, Objects(index)
      ensures offs != [] && Sound(Elements(offs[1..])) && Holds(index, VectorsIn(Stored()), Dim(), metric)
      ensures StagedBlocks(AddressSpace(), allocator.live, tag, Dim(), blocks[1..], offs[1..], left[1..])
      ensures Stored() == old(Stored())[rec.id := SnapshotLayout.Stored(rec.vector, rec.meta)]
      ensures Foreign() == old(Foreign())
      ensures IndexAdded(KindOf(index), Dim(), metric, old(StateOf(index)), rec.id, rec.vector, level, StateOf(index))
    {
      hide Sound, Stored, Holds, VectorsIn, StagedBlocks, Foreign, IndexAdded, KindOf, StateOf;
      ghost var before, space := Stored(), AddressSpace();
      FirstStaged(blocks, offs, left);
      Install(rec.id, block, rec.meta, offs[0], Elements(offs));
      assert Elements(offs) - {offs[0]} == Elements(offs[1..]);
      RestStaged(space, old(allocator.live), blocks, offs, left);
      VectorsUpdate(before, rec.id, SnapshotLayout.Stored(rec.vector, rec.meta));
      AddTo(index, rec.id, rec.vector, level, VectorsIn(before), Dim(), metric);
    }

    lemma FirstStaged(blocks: seq<Block>, offs: seq<nat>, left: seq<Record>)
      requires StagedBlocks(AddressSpace(), allocator.live, tag, Dim(), blocks, offs, left) && blocks != []
      ensures |offs| == |left| == |blocks| && blocks[0] == Block(At(offs[0]), 4 * Dim())
      ensures ReadBlock(AddressSpace(), blocks[0], Dim()) == left[0].vector
      ensures offs[0] !in offs[1..] && Elements(offs) == {offs[0]} + Elements(offs[1..])
    {
      hide ReadBlock;
      assert offs == [offs[0]] + offs[1..];
    }

    /** The blocks behind the committed one are still staged: none was released and no cell was written. */
    lemma RestStaged(space: Space, live: LiveMap, blocks: seq<Block>, offs: seq<nat>, left: seq<Record>)
      requires StagedBlocks(space, live, tag, Dim(), blocks, offs, left) && offs != []
      requires Sound(Elements(offs[1..])) && AddressSpace() == space
      ensures StagedBlocks(AddressSpace(), allocator.live, tag, Dim(), blocks[1..], offs[1..], left[1..])
    {
      hide ReadBlock, AddressSpace, TiledBy, AccountedBy;
      forall i | 0 <= i < |offs[1..]|
        ensures offs[1..][i] in allocator.live && allocator.live[offs[1..][i]] == VectorAlloc(Dim(), tag)
      {
        assert offs[1..][i] in Elements(offs[1..]);
        StagedIsLive(AddressSpace(), allocator.live, tag, Dim(), records, Elements(offs[1..]), offs[1..][i]);
      }
    }

    /** Removes one record and gives its block back. */
    method Remove(id: RecordId) returns (s: Status)
      requires Valid()
      modifies this, allocator, Objects(index)
      ensures Valid() && index == old(index)
      ensures RemoveStep(old(Now()), id, s, Now())
    {
      hide Valid, Sound, Stored, AddressSpace, Seeded, Holds, VectorsIn, StateOf, Foreign, IndexRemoved, KindOf;
      Opened();
      if id !in records {
        return Error(NotFound);
      }
      ghost var before := Stored();
      Drop(id);
      UnindexRecord(id, before);
      return Ok;
    }

    /** Replaces the index by a new one over every stored record; a rejected request leaves it unchanged. Whatever the
        old index held, the collection is coherent once a new one is in place. */
    method BuildIndex(indexType: Byte, params: IndexParams, levels: nat -> nat) returns (s: Status)
      requires Sound({}) && Seeded()
      modifies this`index
      ensures Sound({}) && Seeded() && (Valid() <==> s.Ok? || old(Valid()))
      ensures BuildStep(old(Now()), indexType, params, levels, Dim(), metric, shuffles, s, Now())
      ensures if s.Ok? then fresh(Objects(index)) else index == old(index)
    {
      hide Valid, Sound, Stored, Seeded, Holds, VectorsIn, StateOf, BuildStatus, Foreign, KindOf, RequestedKind,
        IndexFilled, NothingIndexed, RecordList;
      StoredCount();
      s := BuildStatus(indexType, params, recordCount);
      if s.Error? {
        return;
      }
      StoredVectors();
      var created := NewIndex(indexType, params);
      Fill(created, Stored(), levels);
      index := created;
      Reopened();
    }

    lemma StoredCount()
      requires Sound({})
      ensures |Stored()| == recordCount
    {
      assert Stored().Keys == records.Keys;
      assert |Stored()| == |Stored().Keys| && |records| == |records.Keys|;
    }

    lemma StoredVectors()
      requires Sound({})
      ensures forall id | id in Stored() :: id != [] && |Stored()[id].vector| == Dim()
    {
      SmallVectors({});
      StoredLengths(AddressSpace(), allocator.live, tag, Dim(), records, {});
    }

    /** An empty index of the requested type. */
    method NewIndex(indexType: Byte, params: IndexParams) returns (created: Index)
      requires Seeded() && BuildStatus(indexType, params, recordCount).Ok?
      ensures fresh(Objects(created)) && KindOf(created) == RequestedKind(indexType, params, shuffles)
      ensures Holds(created, map[], Dim(), metric) && NothingIndexed(KindOf(created), StateOf(created))
    {
      if indexType == 1 {
        var graph := new HnswIndex(Dim(), metric, params.m, params.efConstruction, params.seed);
        created := Graph(graph);
      } else {
        assert IvfModel.Permutes(shuffles(params.seed));
        var file := new IvfIndex(Dim(), metric, params.nlist, params.seed, shuffles(params.seed));
        created := Inverted(file);
      }
    }

    /** Adds every record to a new index, in id order. */
    method Fill(created: Index, contents: map<RecordId, SnapshotLayout.Stored>, levels: nat -> nat)
      requires Holds(created, map[], Dim(), metric)
      requires forall id | id in contents :: id != [] && |contents[id].vector| == Dim()
      modifies Objects(created)
      ensures Holds(created, VectorsIn(contents), Dim(), metric)
      ensures IndexFilled(KindOf(created), Dim(), metric, old(StateOf(created)), RecordList(contents), levels,
                          StateOf(created))
    {
      hide Holds, SortedIds, Kept, Objects, VectorsIn, Elements, IndexFilled, IndexAdded, KindOf, StateOf;
      var ids := SortedIds(contents.Keys);
      ghost var recs, none := RecordList(contents), StateOf(created);
      FilledNone(KindOf(created), Dim(), metric, none, levels);
      SortedIdsListed(contents.Keys);
      NoneKept(contents);
      for i := 0 to |ids|
        invariant Holds(created, Kept(contents, Elements(ids[..i])), Dim(), metric)
        invariant IndexFilled(KindOf(created), Dim(), metric, none, recs[..i], levels, StateOf(created))
      {
        PrefixSnoc(ids, i);
        ghost var mid := StateOf(created);
        FillOne(created, contents, ids[..i], ids[i], levels(i));
        FilledSnoc(KindOf(created), Dim(), metric, none, recs, i, levels, mid, StateOf(created));
      }
      assert recs[..|ids|] == recs;
      ElementsEnds(ids);
      AllKept(contents, Elements(ids));
    }

    method FillOne(created: Index, contents: map<RecordId, SnapshotLayout.Stored>, ghost done: seq<RecordId>,
                   id: RecordId, level: nat)
      requires Holds(created, Kept(contents, Elements(done)), Dim(), metric)
      requires id in contents && id != [] && |contents[id].vector| == Dim()
      modifies Objects(created)
      ensures Holds(created, Kept(contents, Elements(done + [id])), Dim(), metric)
      ensures IndexAdded(KindOf(created), Dim(), metric, old(StateOf(created)), id, contents[id].vector, level,
                         StateOf(created))
    {
      hide Holds, Kept, Objects, Elements, IndexAdded, KindOf, StateOf;
      KeptSnoc(contents, done, id);
      AddTo(created, id, contents[id].vector, level, Kept(contents, Elements(done)), Dim(), metric);
    }

    /** The settings under which a query returns the exact top k. */
    ghost predicate Exact(q: Vector, k: nat, efSearch: nat, nprobe: nat)
      reads this, allocator, Objects(index)
    {
      index.NoIndex? || k >= |Stored()| || Exhaustive(index, q, k, efSearch, nprobe)
    }

    /** The k nearest records, exactly scored and ordered, whatever the index returns. */
    method Query(q: Vector, k: nat, efSearch: nat, nprobe: nat) returns (r: Result<seq<Candidate>>)
      requires Valid()
      modifies Objects(index)
      ensures Valid()
      ensures QueryStep(old(Now()), q, k, efSearch, nprobe, Dim(), metric, old(Exact(q, k, efSearch, nprobe)), r, Now())
    {
      hide Valid, Sound, Stored, Seeded, Holds, VectorsIn, StateOf, Exhaustive, TopK, Answers, IdLess, Foreign,
        QueryStatus, KindOf, NearestK, Answered, Exact;
      Opened();
      var s := CheckQuery(q, k, Dim());
      if s.Error? {
        return Failure(s.category);
      }
      StatusOkQuery(q, k, Dim());
      var vectors := VectorsIn(Stored());
      var out := AnswerQuery(vectors, q, k, efSearch, nprobe);
      r := Success(out);
    }

    /** Index-assisted when the index can help, otherwise an exact scan. */
    method AnswerQuery(vectors: map<RecordId, Vector>, q: Vector, k: nat, efSearch: nat, nprobe: nat)
        returns (out: seq<Candidate>)
      requires Valid() && vectors == VectorsIn(Stored()) && |q| == Dim()
      modifies Objects(index)
      ensures Valid() && Stored() == old(Stored())
      ensures Answered(KindOf(index), old(StateOf(index)), vectors, q, k, efSearch, nprobe, Dim(), metric,
                       old(Exact(q, k, efSearch, nprobe)), out, StateOf(index))
    {
      hide Valid, Sound, Stored, Seeded, Holds, VectorsIn, StateOf, Exhaustive, TopK, Answers, NearestK, IndexKept,
        IndexSearched, RerankedFrom, KindOf, Answered;
      ghost var index0, exact := StateOf(index), Exact(q, k, efSearch, nprobe);
      TopKNearest(vectors, metric, q, k);
      Opened();
      StoredCount();
      VectorCount(Stored());
      NoIndexIsAbsent(index);
      if recordCount == 0 {
        NothingStored(q, k);
        AnsweredAll(KindOf(index), index0, vectors, q, k, efSearch, nprobe, Dim(), metric, exact, []);
        return [];
      }
      if index.NoIndex? || k >= recordCount {
        out := AnswerAll(vectors, metric, q, k);
        AnsweredAll(KindOf(index), index0, vectors, q, k, efSearch, nprobe, Dim(), metric, exact, out);
        return;
      }
      var candidates := SearchIn(index, q, k, efSearch, nprobe, vectors, Dim(), metric);
      out := AnswerFrom(candidates, vectors, metric, q, k);
      AnsweredBy(KindOf(index), index0, vectors, q, k, efSearch, nprobe, Dim(), metric, exact, out, candidates,
                 StateOf(index));
      Reopened();
    }

    lemma NothingStored(q: Vector, k: nat)
      requires |Stored()| == 0
      ensures Answers([], VectorsIn(Stored()), metric, q, k) && TopK(VectorsIn(Stored()), metric, q, k) == []
    {
      assert Stored() == map[] && VectorsIn(Stored()) == map[];
      assert AllScored(map[], metric, q) == {};
    }

    /** The serialized form of an index that fits the format. */
    ghost function Blob(): Bytes
      reads this, Objects(index)
    {
      BlobOf(index)
    }

    /** The point-in-time view of the collection: records in id order, the index as its region. */
    method Capture() returns (d: SnapshotData)
      requires IndexStorable(index)
      ensures d == SnapshotData(config, TypeOf(index), RecordList(Stored()), Blob())
    {
      hide RecordList, Stored, Sound, Seeded, VectorsIn;
      var blob := [];
      match index {
        case NoIndex =>
        case Graph(g) => blob := HnswPersist.Serialize(g);
        case Inverted(f) => blob := f.Serialize();
      }
      d := SnapshotData(config, TypeOf(index), ListRecords(), blob);
    }

    function ListRecords(): seq<Record>
      reads this`records, allocator
    {
      RecordList(Stored())
    }

    /** An in-memory collection's tag accounts for exactly count * dimensionality * 4 bytes, in disjoint blocks. */
    lemma MemoryHeld()
      requires Valid() && mapping == []
      ensures Sum(allocator.live, TagRequested(tag)) == recordCount * (4 * Dim())
      ensures forall i, j | i in records && j in records && i != j ::
        Apart(allocator.capacity, Dim(), records[i].block, records[j].block)
    {
      hide Valid, Sound, Stored, Holds, Seeded, TiledBy, AccountedBy, BlocksLaidOut, Sum, Housed;
      Opened();
      Unfolded({});
      forall id | id in records ensures InArena(AddressSpace(), records[id].block) {
        OwnedIsLive(AddressSpace(), allocator.live, tag, Dim(), records, {}, id);
      }
      TagHoldsRecords(AddressSpace(), allocator.live, tag, Dim(), records);
      forall i, j | i in records && j in records && i != j
        ensures Apart(allocator.capacity, Dim(), records[i].block, records[j].block)
      {
        RecordsDisjoint(AddressSpace(), allocator.live, tag, Dim(), records, {}, i, j);
      }
    }

    /** Releases the block of a record and erases its slot. */
    method Drop(id: RecordId)
      requires Sound({}) && id in records
      modifies this`records, this`recordCount, allocator
      ensures Sound({}) && Stored() == old(Stored()) - {id}
      ensures allocator.live.Keys <= old(allocator.live).Keys && Foreign() == old(Foreign())
    {
      hide Sound, Housed, Contents, GoodSpace, ReadBlock, BlocksLaidOut, MemoryAllocator.Valid, Foreign;
      Unfolded({});
      ContentsUpdate(AddressSpace(), records, Dim(), id, records[id]);
      Unhouse(id, {});
      assert (records - {id}).Keys == records.Keys - {id};
      records := records - {id};
      recordCount := recordCount - 1;
      Folded({});
    }

    /** Excludes a removed record from the index. */
    method UnindexRecord(id: RecordId, ghost before: map<RecordId, SnapshotLayout.Stored>)
      requires Sound({}) && Seeded() && Holds(index, VectorsIn(before), Dim(), metric)
      requires id in before && Stored() == before - {id}
      modifies Objects(index)
      ensures Valid() && Stored() == old(Stored()) && IndexRemoved(old(StateOf(index)), id, StateOf(index))
    {
      hide Sound, Seeded, Stored, Holds, VectorsIn, IndexRemoved, StateOf;
      VectorsUpdate(before, id, before[id]);
      RemoveFrom(index, id, VectorsIn(before), Dim(), metric);
    }
  }

  /** Two blocks of the arena that hold a vector each and share no byte. */
  predicate Apart(capacity: nat, dim: nat, a: Block, b: Block) {
    && a.data.At? && b.data.At? && 0 <= a.data.displacement < capacity && 0 <= b.data.displacement < capacity
    && (a.data.displacement + 4 * dim <= b.data.displacement || b.data.displacement + 4 * dim <= a.data.displacement)
  }

  /** Without help from an index the answer is the k nearest of all. */
  lemma AnsweredAll(kind: IndexKind, index: IndexState, vectors: map<RecordId, Vector>, q: Vector, k: nat,
                    efSearch: nat, nprobe: nat, dim: nat, metric: Metric, exact: bool, out: seq<Candidate>)
    requires Answers(out, vectors, metric, q, k) && NearestK(out, vectors, metric, q, k)
    requires index.Absent? || k >= |vectors|
    ensures Answered(kind, index, vectors, q, k, efSearch, nprobe, dim, metric, exact, out, index)
  {
    KeptItself(index);
    hide Answers, NearestK, Assisted, IndexKept;
  }

  lemma AnsweredBy(kind: IndexKind, index: IndexState, vectors: map<RecordId, Vector>, q: Vector, k: nat,
                   efSearch: nat, nprobe: nat, dim: nat, metric: Metric, exact: bool, out: seq<Candidate>,
                   candidates: seq<Candidate>, after: IndexState)
    requires Answers(out, vectors, metric, q, k) && (exact ==> NearestK(out, vectors, metric, q, k))
    requires !index.Absent? && k < |vectors| && IndexKept(index, after)
    requires IndexSearched(kind, dim, metric, index, q, k, efSearch, nprobe, candidates)
    requires RerankedFrom(out, candidates, vectors, metric, q, k)
    ensures Answered(kind, index, vectors, q, k, efSearch, nprobe, dim, metric, exact, out, after)
  {
    hide Answers, NearestK, IndexSearched, RerankedFrom, IndexKept;
  }

  lemma VectorCount(stored: map<RecordId, SnapshotLayout.Stored>)
    ensures |VectorsIn(stored)| == |stored|
  {
    assert VectorsIn(stored).Keys == stored.Keys;
    assert |VectorsIn(stored)| == |VectorsIn(stored).Keys| && |stored| == |stored.Keys|;
  }

  method CheckQuery(q: Vector, k: nat, dim: nat) returns (s: Status)
    ensures s == QueryStatus(q, k, dim)
  {
    if k < 1 {
      return Error(InvalidArgument);
    }
    if |q| != dim {
      return Error(DimensionMismatch);
    }
    var bad := FirstNonFinite(q);
    if bad != |q| {
      return Error(InvalidValue);
    }
    return Ok;
  }

  lemma StatusOkQuery(q: Vector, k: nat, dim: nat)
    requires QueryStatus(q, k, dim).Ok?
    ensures |q| == dim
  {
  }

  /** Counts and parameters fit the fixed-width fields of the index region. */
  ghost predicate IndexStorable(index: Index)
    reads Objects(index)
  {
    match index
    case NoIndex => true
    case Graph(g) => HnswPersist.Storable(g.P(), g.G())
    case Inverted(f) => f.requestedNlist < TWO32 && f.seed < TWO64
  }

  ghost function BlobOf(index: Index): Bytes
    reads Objects(index)
  {
    match index
    case NoIndex => []
    case Graph(g) => HnswPersist.Region(g.P(), g.G())
    case Inverted(f) => if f.requestedNlist < TWO32 && f.seed < TWO64 then Ivf.Region(f.requestedNlist, f.seed) else []
  }

  /** The vectors of the records with the given ids. */
  ghost function Kept(contents: map<RecordId, SnapshotLayout.Stored>, ids: set<RecordId>): map<RecordId, Vector> {
    map id | id in contents && id in ids :: contents[id].vector
  }

  lemma PrefixSnoc(ids: seq<RecordId>, i: nat)
    requires i < |ids|
    ensures ids[..i + 1] == ids[..i] + [ids[i]]
  {
  }

  lemma NoneKept(contents: map<RecordId, SnapshotLayout.Stored>)
    ensures forall none: seq<RecordId> | none == [] :: Kept(contents, Elements(none)) == map[]
  {
  }

  lemma KeptSnoc(contents: map<RecordId, SnapshotLayout.Stored>, ids: seq<RecordId>, id: RecordId)
    requires id in contents
    ensures Kept(contents, Elements(ids + [id])) == Kept(contents, Elements(ids))[id := contents[id].vector]
  {
  }

  lemma AllKept(contents: map<RecordId, SnapshotLayout.Stored>, ids: set<RecordId>)
    requires contents.Keys <= ids
    ensures Kept(contents, ids) == VectorsIn(contents)
  {
  }

  /** The ledger is that of a tiled arena with exact totals. */
  ghost predicate Balanced(capacity: nat, a: Accounts) {
    TiledBy(capacity, a.free, a.live) && a.bytes == Sum(a.live, Requested) && a.blocks == |a.live|
  }

  /** The live blocks determine the whole ledger. */
  lemma SameLedger(capacity: nat, a: Accounts, b: Accounts)
    requires Balanced(capacity, a) && Balanced(capacity, b) && a.live == b.live
    ensures a == b
  {
    FreeListDetermined(capacity, a.live, a.free, b.free);
  }

  lemma RoomForNone(capacity: nat, live: LiveMap, r: AllocRecord)
    ensures Room(capacity, live, r, 0)
  {
  }

  lemma PutStep(a: State, id: RecordId, vec: Vector, meta: Option<Metadata>, level: nat, dim: nat, metric: Metric,
                capacity: nat, ok: bool, b: State)
    requires RecordStatus(id, vec, dim).Ok? && ok == !NoFit(capacity, a.accounts.live, VectorFootprint(dim))
    requires b.foreign == a.foreign
    requires if ok
      then b.stored == a.stored[id := SnapshotLayout.Stored(vec, meta)]
           && b.kind == a.kind && IndexAdded(a.kind, dim, metric, a.index, id, vec, level, b.index)
      else b == a
    ensures InsertStep(a, id, vec, meta, level, dim, metric, capacity, if ok then Ok else Error(AllocationFailure), b)
  {
    hide RecordStatus, NoFit, IndexAdded;
  }

  lemma BatchOk(inputs: seq<Record>, dim: nat)
    requires BatchStatus(inputs, dim).Ok?
    ensures forall i | 0 <= i < |inputs| :: inputs[i].id != [] && |inputs[i].vector| == dim
  {
    forall i | 0 <= i < |inputs| ensures inputs[i].id != [] && |inputs[i].vector| == dim {
      assert RecordStatus(inputs[i].id, inputs[i].vector, dim).Ok?;
    }
  }

  lemma StatusOk(id: RecordId, vec: Vector, dim: nat)
    requires RecordStatus(id, vec, dim).Ok?
    ensures id != [] && |vec| == dim
  {
  }

  lemma ReleasedLive(live: LiveMap, block: Block)
    ensures Released(live, block) == match block.data { case At(d) => live - {d} case Null => live }
  {
  }

  /** Giving one staged block back. */
  lemma OneBack(live0: LiveMap, offs: seq<nat>, r: AllocRecord, i: nat)
    requires Distinct(offs) && i < |offs| && Elements(offs) !! live0.Keys
    ensures Extended(live0, offs[i..], r) - {offs[i]} == Extended(live0, offs[i + 1..], r)
    ensures offs[i] in Elements(offs[i..]) && Elements(offs[i..]) - {offs[i]} == Elements(offs[i + 1..])
    ensures offs[i] in Extended(live0, offs[i..], r)
  {
    var tail := offs[i..];
    assert tail[1..] == offs[i + 1..] && tail[0] == offs[i];
    assert offs[i] in Elements(offs);
    hide Extended;
    ExtendedTail(live0, tail, r);
    ExtendedHas(live0, tail, r);
  }

  lemma NoneBack(live0: LiveMap, none: seq<nat>, r: AllocRecord)
    requires none == []
    ensures Extended(live0, none, r) == live0 && Elements(none) == {}
  {
  }

  lemma ExtendedHas(live: LiveMap, offs: seq<nat>, r: AllocRecord)
    ensures forall o | o in offs :: o in Extended(live, offs, r) && Extended(live, offs, r)[o] == r
  {
  }

  lemma WithoutThenWith<K, V>(m: map<K, V>, k: K, v: V)
    ensures (m - {k})[k := v] == m[k := v] && (k !in m ==> m - {k} == m)
  {
  }

  lemma WithCount<K, V>(m: map<K, V>, k: K, v: V)
    ensures |m[k := v]| == if k in m then |m| else |m| + 1
  {
    assert m[k := v].Keys == m.Keys + {k};
    assert |m[k := v]| == |m[k := v].Keys| && |m| == |m.Keys|;
  }

  lemma FitFound(capacity: nat, live: LiveMap, n: nat, o: nat)
    requires LowestFit(capacity, live, n, o)
    ensures !NoFit(capacity, live, n)
  {
  }

  lemma EmptyHouse(s: Space, live: LiveMap, tag: Tag, dim: nat)
    requires TagBlocks(live, tag) == {} && 1 <= dim <= 65536
    ensures Housed(s, live, tag, dim, map[], {}) && Contents(s, map[], dim) == map[]
  {
    assert Offsets(s, map[]) == {};
    forall o | o in live ensures live[o].tag != tag {
      assert o !in TagBlocks(live, tag);
    }
  }
}
