/** The index a collection may hold, behind one interface. */
module Indexing {
  import opened Ordering
  import opened Vectors
  import HnswGraph
  import HnswModel
  import HnswSteps
  import opened Hnsw
  import IvfModel
  import opened Ivf

  datatype Index = NoIndex | Graph(graph: HnswIndex) | Inverted(file: IvfIndex)

  /** The index type tag of the snapshot format. */
  function TypeOf(index: Index): Byte {
    match index
    case NoIndex => 0
    case Graph(_) => 1
    case Inverted(_) => 2
  }

  function Objects(index: Index): set<object> {
    match index
    case NoIndex => {}
    case Graph(g) => {g}
    case Inverted(f) => {f}
  }

  /** The kind of an index and its construction parameters, which never change. */
  datatype IndexKind =
    | Unindexed
    | GraphKind(m: nat, efConstruction: nat, seed: nat)
    | FileKind(nlist: nat, seed: nat, shuffle: IvfModel.Shuffle)

  function KindOf(index: Index): IndexKind {
    match index
    case NoIndex => Unindexed
    case Graph(g) => GraphKind(g.m, g.efConstruction, g.seed)
    case Inverted(f) => FileKind(f.requestedNlist, f.seed, f.shuffle)
  }

  /** The whole state of the index objects. */
  datatype IndexState =
    | Absent
    | GraphState(graph: HnswModel.Graph)
    | FileState(entries: seq<IvfModel.Entry>, ids: map<RecordId, nat>, liveCount: nat, dirty: bool,
                cells: IvfModel.Partition)

  function StateOf(index: Index): IndexState
    reads Objects(index)
  {
    match index
    case NoIndex => Absent
    case Graph(g) => GraphState(g.G())
    case Inverted(f) =>
      FileState(f.entries, f.idToIndex, f.liveCount, f.dirty, IvfModel.Partition(f.centroids, f.invertedLists))
  }

  // ---------------------------------------------------------------- what the operations do

  /** Adding a record to an index: a graph links a new node of the given level or revives the record's node, an inverted
      file appends an entry or overwrites the record's, and marks its partition stale. */
  ghost predicate IndexAdded(kind: IndexKind, dim: nat, metric: Metric, a: IndexState, id: RecordId, vec: Vector,
                             level: nat, b: IndexState) {
    match a
    case Absent => b == Absent
    case GraphState(g) => b.GraphState? && GraphAdded(kind, dim, metric, g, id, vec, level, b.graph)
    case FileState(entries, ids, _, _, _) =>
      && Stale(b) && (id in ids ==> Replaced(entries, ids, id, vec, b.entries, b.ids))
      && (id !in ids ==> Appended(entries, ids, id, vec, b.entries, b.ids))
  }

  ghost predicate GraphAdded(kind: IndexKind, dim: nat, metric: Metric, g: HnswModel.Graph, id: RecordId, vec: Vector,
                             level: nat, after: HnswModel.Graph) {
    && kind.GraphKind?
    && HnswSteps.AddStep(HnswModel.Params(dim, metric, kind.m, kind.efConstruction, kind.seed), g, id, vec, level,
                         after)
  }

  /** An inverted file whose partition is to be rebuilt before it is searched. */
  ghost predicate Stale(s: IndexState) { s.FileState? && s.dirty && s.liveCount == |IvfModel.LiveSet(s.entries)| }

  /** Removing a record from an index makes its node or entry a tombstone. */
  ghost predicate IndexRemoved(a: IndexState, id: RecordId, b: IndexState) {
    match a
    case Absent => b == Absent
    case GraphState(g) =>
      id in g.ids && g.ids[id] < |g.nodes| && g.liveCount > 0 && b == GraphState(HnswSteps.Tombstone(g, id))
    case FileState(entries, ids, _, _, _) => Stale(b) && Tombstoned(entries, ids, id, b.entries, b.ids)
  }

  /** Searching leaves a graph alone, and of an inverted file changes no more than its partition. */
  ghost predicate IndexKept(a: IndexState, b: IndexState) {
    match a
    case Absent => b == a
    case GraphState(_) => b == a
    case FileState(entries, ids, liveCount, _, _) =>
      b.FileState? && b.entries == entries && b.ids == ids && b.liveCount == liveCount
  }

  lemma KeptItself(s: IndexState)
    ensures IndexKept(s, s)
  {
  }

  lemma NoIndexIsAbsent(index: Index)
    ensures StateOf(index).Absent? <==> index.NoIndex?
  {
  }

  /** What an index offers as candidates: a graph the k nearest of what a search of layer 0 finds from where the descent
      ends, an inverted file the k nearest of what is filed in the nearest cells. */
  ghost predicate IndexSearched(kind: IndexKind, dim: nat, metric: Metric, a: IndexState, q: Vector, k: nat,
                                efSearch: nat, nprobe: nat, out: seq<Candidate>) {
    match a
    case Absent => out == []
    case GraphState(g) =>
      kind.GraphKind?
      && GraphSearched(HnswModel.Params(dim, metric, kind.m, kind.efConstruction, kind.seed), g, q, k, efSearch, out)
    case FileState(entries, ids, _, _, _) =>
      kind.FileKind?
      && FileSearched(IvfModel.Params(dim, metric, kind.nlist, kind.seed, kind.shuffle), entries, ids, q, k, nprobe,
                      out)
  }

  ghost predicate GraphSearched(p: HnswModel.Params, g: HnswModel.Graph, q: Vector, k: nat, efSearch: nat,
                                out: seq<Candidate>) {
    if k == 0 || g.liveCount == 0 then out == []
    else exists start: nat, found, visited :: GraphFound(p, g, q, k, efSearch, out, start, found, visited)
  }

  ghost predicate GraphFound(p: HnswModel.Params, g: HnswModel.Graph, q: Vector, k: nat, efSearch: nat,
                             out: seq<Candidate>, start: nat, found: seq<HnswGraph.Item>, visited: set<nat>) {
    && (forall id | id in g.ids :: g.ids[id] < |g.nodes|) && g.entryPoint >= 0
    && HnswModel.Descent(p, g.nodes, q, g.entryPoint, g.maxLevel, 0, start)
    && HnswGraph.View(g.nodes, p.metric, q, 0).Answers({start}, Widest(efSearch, k), found, visited)
    && NearestK(out, FoundIn(g, p.metric, q, found), p.metric, q, k)
  }

  /** The larger of the search breadth asked for and the number of answers. */
  function Widest(efSearch: nat, k: nat): nat { if efSearch < k then k else efSearch }

  ghost predicate FileSearched(p: IvfModel.Params, entries: seq<IvfModel.Entry>, ids: map<RecordId, nat>, q: Vector,
                               k: nat, nprobe: nat, out: seq<Candidate>) {
    && IvfModel.VectorsFit(entries, p.dimensionality) && IvfModel.Permutes(p.shuffle) && |q| == p.dimensionality
    && (forall id | id in ids :: ids[id] < |entries|)
    && exists cells :: FileProbed(p, entries, ids, q, k, nprobe, out, cells)
  }

  ghost predicate FileProbed(p: IvfModel.Params, entries: seq<IvfModel.Entry>, ids: map<RecordId, nat>, q: Vector,
                             k: nat, nprobe: nat, out: seq<Candidate>, cells: seq<nat>)
    requires IvfModel.VectorsFit(entries, p.dimensionality) && IvfModel.Permutes(p.shuffle) && |q| == p.dimensionality
    requires forall id | id in ids :: ids[id] < |entries|
  {
    var r := IvfModel.Rebuilt(entries, p);
    && IvfModel.NearestCells(Values(q), r.centroids, nprobe, cells)
    && NearestK(out, IvfModel.Filed(entries, ids, r.lists, cells), p.metric, q, k)
  }

  // ---------------------------------------------------------------- the code

  /** The index is well-formed and stores exactly the given vectors. */
  ghost predicate Holds(index: Index, vectors: map<RecordId, Vector>, dim: nat, metric: Metric)
    reads Objects(index)
  {
    match index
    case NoIndex => true
    case Graph(g) => g.Valid() && g.dimensionality == dim && g.metric == metric && HnswModel.Contents(g.G()) == vectors
    case Inverted(f) => f.Valid() && f.dimensionality == dim && f.metric == metric && f.Records() == vectors
  }

  /** Adds or replaces one record; a validated record cannot fail. */
  method AddTo(index: Index, id: RecordId, vec: Vector, level: nat, ghost vectors: map<RecordId, Vector>, dim: nat,
               ghost metric: Metric)
    requires Holds(index, vectors, dim, metric) && id != [] && |vec| == dim
    modifies Objects(index)
    ensures Holds(index, vectors[id := vec], dim, metric)
    ensures IndexAdded(KindOf(index), dim, metric, old(StateOf(index)), id, vec, level, StateOf(index))
  {
    hide HnswModel.WellFormed, HnswModel.Contents, IvfModel.Rebuilt, IvfModel.Contents, IvfModel.Named,
      IvfModel.Permutes, HnswSteps.AddStep;
    match index
    case NoIndex =>
    case Graph(g) =>
      var s := g.Add(id, vec, level);
    case Inverted(f) =>
      var s := f.Add(id, vec);
  }

  /** Removes one record; a stored record is live in the index. */
  method RemoveFrom(index: Index, id: RecordId, ghost vectors: map<RecordId, Vector>, ghost dim: nat,
                    ghost metric: Metric)
    requires Holds(index, vectors, dim, metric) && id in vectors
    modifies Objects(index)
    ensures Holds(index, vectors - {id}, dim, metric)
    ensures IndexRemoved(old(StateOf(index)), id, StateOf(index))
  {
    hide HnswModel.Linked, HnswModel.Topped, IvfModel.Rebuilt, IvfModel.Named, IvfModel.Permutes;
    match index
    case NoIndex =>
    case Graph(g) =>
      var s := g.Remove(id);
    case Inverted(f) =>
      var s := f.Remove(id);
  }

  /** The search settings under which the index answers exactly: an inverted file probing all its cells, or a
      graph searched more broadly than it is large, all of whose records layer 0 reaches from the descent's end. */
  ghost predicate Exhaustive(index: Index, q: Vector, k: nat, efSearch: nat, nprobe: nat)
    reads Objects(index)
  {
    match index
    case NoIndex => false
    case Graph(g) =>
      && k > 0 && g.liveCount > 0 && g.Valid() && (|g.nodes| < efSearch || |g.nodes| < k)
      && forall start: nat | HnswModel.Descent(g.P(), g.nodes, q, g.entryPoint, g.maxLevel, 0, start) ::
           g.Reached(q, start) == HnswModel.Contents(g.G())
    case Inverted(f) => f.Valid() && nprobe >= |IvfModel.Rebuilt(f.entries, f.P()).centroids|
  }

  /** Searches the index; an inverted file may refresh its partition on the way. */
  method SearchIn(index: Index, q: Vector, k: nat, efSearch: nat, nprobe: nat, ghost vectors: map<RecordId, Vector>,
                  ghost dim: nat, ghost metric: Metric) returns (candidates: seq<Candidate>)
    requires Holds(index, vectors, dim, metric) && |q| == dim
    modifies Objects(index)
    ensures Holds(index, vectors, dim, metric)
    ensures old(Exhaustive(index, q, k, efSearch, nprobe)) ==> candidates == TopK(vectors, metric, q, k)
    ensures IndexKept(old(StateOf(index)), StateOf(index))
    ensures IndexSearched(KindOf(index), dim, metric, old(StateOf(index)), q, k, efSearch, nprobe, candidates)
  {
    hide TopK, GraphSearched, FileSearched, HnswModel.WellFormed, HnswModel.Contents, IvfModel.Rebuilt,
      IvfModel.Contents, IvfModel.Named, IvfModel.Permutes, IvfModel.LiveSet, HnswIndex.Reached, HnswModel.Descent;
    candidates := [];
    match index
    case NoIndex =>
    case Graph(g) => candidates := SearchGraph(g, q, k, efSearch);
    case Inverted(f) => candidates := SearchFile(f, q, k, nprobe);
  }

  method SearchGraph(g: HnswIndex, q: Vector, k: nat, efSearch: nat) returns (candidates: seq<Candidate>)
    requires g.Valid()
    ensures GraphSearched(g.P(), g.G(), q, k, efSearch, candidates)
    ensures Exhaustive(Graph(g), q, k, efSearch, 0) ==>
      candidates == TopK(HnswModel.Contents(g.G()), g.metric, q, k)
  {
    hide TopK, HnswModel.WellFormed, NearestK, HnswModel.Descent, HnswGraph.View.Answers, FoundIn, HnswModel.Contents,
      HnswIndex.Reached;
    ghost var ef, start, found, visited;
    candidates, ef, start, found, visited := g.Search(q, k, efSearch);
    if k > 0 && g.liveCount > 0 {
      SomeLive(g);
      assert GraphFound(g.P(), g.G(), q, k, efSearch, candidates, start, found, visited);
    } else {
      NoneFound(g, q, k, found, candidates);
    }
  }

  lemma SomeLive(g: HnswIndex)
    requires g.Valid() && g.liveCount > 0
    ensures g.entryPoint >= 0 && forall id | id in g.idToInternal :: g.idToInternal[id] < |g.nodes|
  {
    hide HnswModel.Linked;
    NoNodes(g.nodes);
  }

  lemma NoNodes(nodes: HnswGraph.Nodes)
    ensures nodes == [] ==> HnswModel.LiveNodes(nodes) == {}
  {
  }

  lemma NoneFound(g: HnswIndex, q: Vector, k: nat, found: seq<HnswGraph.Item>, out: seq<Candidate>)
    requires g.Valid() && (k == 0 || g.liveCount == 0) && out == TopK(g.FoundRecords(q, found), g.metric, q, k)
    ensures out == []
  {
    hide HnswModel.WellFormed, TopK;
    g.NothingLive(q, k, g.FoundRecords(q, found));
  }

  method SearchFile(f: IvfIndex, q: Vector, k: nat, nprobe: nat) returns (candidates: seq<Candidate>)
    requires f.Valid() && |q| == f.dimensionality
    modifies f`dirty, f`centroids, f`invertedLists
    ensures f.Valid()
    ensures FileSearched(f.P(), f.entries, f.idToIndex, q, k, nprobe, candidates)
    ensures nprobe >= |IvfModel.Rebuilt(f.entries, f.P()).centroids| ==>
      candidates == TopK(f.Records(), f.metric, q, k)
  {
    hide TopK, NearestK, IvfModel.Rebuilt, IvfModel.NearestCells, IvfModel.Filed, IvfModel.Permutes,
      IvfModel.Contents;
    ghost var cells;
    candidates, cells := f.Search(q, k, nprobe);
    assert FileProbed(f.P(), f.entries, f.idToIndex, q, k, nprobe, candidates, cells);
  }
}
