/** What an index built over the stored records looks like, slot by slot. */
module IndexOrder {
  import opened Ordering
  import opened Identifiers
  import opened Vectors
  import opened SnapshotLayout
  import opened SnapshotRoundTrip
  import opened HnswModel
  import opened Indexing
  import opened Collections
  import HnswInsert
  import HnswSteps
  import IvfModel

  /** Records that can be added to an index one after the other without replacing each other. */
  ghost predicate Addable(recs: seq<Record>, dim: nat) {
    && (forall i | 0 <= i < |recs| :: recs[i].id != [] && |recs[i].vector| == dim)
    && forall i, j | 0 <= i < j < |recs| :: recs[i].id != recs[j].id
  }

  /** Node i is the live node of record i, on the layers up to the i-th level drawn. */
  ghost predicate NodesOf(g: Graph, recs: seq<Record>, levels: nat -> nat) {
    && |g.nodes| == |recs| && (forall id | id in g.ids :: exists i :: 0 <= i < |recs| && recs[i].id == id)
    && forall i | 0 <= i < |recs| ::
         g.nodes[i].id == recs[i].id && g.nodes[i].vector == recs[i].vector && !g.nodes[i].deleted
         && g.nodes[i].topLayer == levels(i)
  }

  /** Entry i is record i, live. */
  ghost predicate EntriesAre(entries: seq<IvfModel.Entry>, ids: map<RecordId, nat>, recs: seq<Record>) {
    && |entries| == |recs| && (forall id | id in ids :: exists i :: 0 <= i < |recs| && recs[i].id == id)
    && forall i | 0 <= i < |recs| ::
         entries[i].id == recs[i].id && entries[i].vector == recs[i].vector && !entries[i].deleted
  }

  /** A graph built over records has one live node for each, in their order and on the layers drawn for them, and is
      well-formed. */
  lemma {:induction false} GraphInOrder(kind: IndexKind, dim: nat, metric: Metric, none: IndexState, recs: seq<Record>,
                                        levels: nat -> nat, b: IndexState)
    requires kind.GraphKind? && kind.efConstruction >= 1 && NothingIndexed(kind, none) && Addable(recs, dim)
    requires IndexFilled(kind, dim, metric, none, recs, levels, b)
    ensures b.GraphState? && NodesOf(b.graph, recs, levels)
    ensures WellFormed(b.graph, Params(dim, metric, kind.m, kind.efConstruction, kind.seed))
    decreases |recs|
  {
    hide NodesOf, WellFormed, IndexAdded;
    var p := Params(dim, metric, kind.m, kind.efConstruction, kind.seed);
    if recs == [] {
      EmptyGraph(p, kind, none, levels);
    } else {
      var n := |recs| - 1;
      var mid :| IndexFilled(kind, dim, metric, none, recs[..n], levels, mid)
        && IndexAdded(kind, dim, metric, mid, recs[n].id, recs[n].vector, levels(n), b);
      GraphInOrder(kind, dim, metric, none, recs[..n], levels, mid);
      hide IndexFilled;
      NextNode(kind, p, mid, recs, levels, b);
    }
  }

  lemma EmptyGraph(p: Params, kind: IndexKind, none: IndexState, levels: nat -> nat)
    requires kind.GraphKind? && NothingIndexed(kind, none)
    ensures NodesOf(none.graph, [], levels) && WellFormed(none.graph, p)
  {
    assert LiveNodes([]) == {};
  }

  /** Adding the next record adds its node at the end. */
  lemma NextNode(kind: IndexKind, p: Params, mid: IndexState, recs: seq<Record>, levels: nat -> nat, b: IndexState)
    requires kind.GraphKind? && kind.efConstruction >= 1 && recs != [] && Addable(recs, p.dimensionality)
    requires p == Params(p.dimensionality, p.metric, kind.m, kind.efConstruction, kind.seed)
    requires mid.GraphState? && WellFormed(mid.graph, p) && NodesOf(mid.graph, recs[..|recs| - 1], levels)
    requires var n := |recs| - 1;
      IndexAdded(kind, p.dimensionality, p.metric, mid, recs[n].id, recs[n].vector, levels(n), b)
    ensures b.GraphState? && WellFormed(b.graph, p) && NodesOf(b.graph, recs, levels)
  {
    hide WellFormed, HnswSteps.Inserted, HnswInsert.Grows, Contents;
    var n, g := |recs| - 1, mid.graph;
    var r := recs[n];
    NewId(g, recs, levels);
    HnswInsert.InsertedGrows(p, g, r.id, r.vector, levels(n), b.graph);
    HnswSteps.StepAddKeeps(p, g, r.id, r.vector, levels(n), b.graph);
    InsertedIds(p, g, r.id, r.vector, levels(n), b.graph);
    NodesSnoc(g, recs, levels, b.graph);
  }

  lemma NewId(g: Graph, recs: seq<Record>, levels: nat -> nat)
    requires recs != [] && NodesOf(g, recs[..|recs| - 1], levels)
    requires forall i, j | 0 <= i < j < |recs| :: recs[i].id != recs[j].id
    ensures recs[|recs| - 1].id !in g.ids
  {
  }

  lemma InsertedIds(p: Params, g: Graph, id: RecordId, vec: Vector, level: nat, after: Graph)
    requires HnswSteps.Inserted(p, g, id, vec, level, after)
    ensures after.ids == g.ids[id := |g.nodes|]
  {
    hide Descent, LinkedDown;
  }

  lemma NodesSnoc(g: Graph, recs: seq<Record>, levels: nat -> nat, after: Graph)
    requires recs != [] && NodesOf(g, recs[..|recs| - 1], levels)
    requires var r := recs[|recs| - 1];
      HnswInsert.Grows(g, r.id, r.vector, levels(|recs| - 1), after) && after.ids == g.ids[r.id := |g.nodes|]
    ensures NodesOf(after, recs, levels)
  {
    var n := |recs| - 1;
    forall id | id in after.ids ensures exists i :: 0 <= i < |recs| && recs[i].id == id {
      if id == recs[n].id {
      } else {
        var i :| 0 <= i < n && recs[..n][i].id == id;
        assert recs[i].id == id;
      }
    }
    forall i | 0 <= i < |recs|
      ensures after.nodes[i].id == recs[i].id && after.nodes[i].vector == recs[i].vector && !after.nodes[i].deleted
      ensures after.nodes[i].topLayer == levels(i)
    {
      if i < n { assert recs[..n][i] == recs[i]; }
    }
  }

  /** An inverted file built over records has one live entry for each, in their order. */
  lemma {:induction false} FileInOrder(kind: IndexKind, dim: nat, metric: Metric, none: IndexState, recs: seq<Record>,
                                       levels: nat -> nat, b: IndexState)
    requires kind.FileKind? && NothingIndexed(kind, none) && Addable(recs, dim)
    requires IndexFilled(kind, dim, metric, none, recs, levels, b)
    ensures b.FileState? && b.dirty && EntriesAre(b.entries, b.ids, recs)
    decreases |recs|
  {
    hide EntriesAre, IndexAdded;
    if recs == [] {
      EmptyFile(kind, none);
    } else {
      var n := |recs| - 1;
      var mid :| IndexFilled(kind, dim, metric, none, recs[..n], levels, mid)
        && IndexAdded(kind, dim, metric, mid, recs[n].id, recs[n].vector, levels(n), b);
      FileInOrder(kind, dim, metric, none, recs[..n], levels, mid);
      hide IndexFilled;
      NextEntry(kind, dim, metric, mid, recs, levels, b);
    }
  }

  lemma EmptyFile(kind: IndexKind, none: IndexState)
    requires kind.FileKind? && NothingIndexed(kind, none)
    ensures EntriesAre(none.entries, none.ids, []) && none.dirty
  {
  }

  lemma NextEntry(kind: IndexKind, dim: nat, metric: Metric, mid: IndexState, recs: seq<Record>, levels: nat -> nat,
                  b: IndexState)
    requires kind.FileKind? && recs != [] && Addable(recs, dim)
    requires mid.FileState? && EntriesAre(mid.entries, mid.ids, recs[..|recs| - 1])
    requires var n := |recs| - 1; IndexAdded(kind, dim, metric, mid, recs[n].id, recs[n].vector, levels(n), b)
    ensures b.FileState? && b.dirty && EntriesAre(b.entries, b.ids, recs)
  {
    hide IvfModel.LiveSet;
    var n := |recs| - 1;
    forall id | id in b.ids ensures exists i :: 0 <= i < |recs| && recs[i].id == id {
      if id == recs[n].id {
      } else {
        var i :| 0 <= i < n && recs[..n][i].id == id;
        assert recs[i].id == id;
      }
    }
    forall i | 0 <= i < n ensures recs[..n][i] == recs[i] && b.entries[i] == mid.entries[i] {
    }
  }

  // ---------------------------------------------------------------- the stored records

  /** The record list is every stored record once, by ascending id. */
  lemma ListedInOrder(stored: map<RecordId, Stored>)
    ensures var recs := RecordList(stored);
      && (forall i | 0 <= i < |recs| ::
            recs[i].id in stored && stored[recs[i].id] == Stored(recs[i].vector, recs[i].meta))
      && (forall i, j | 0 <= i < j < |recs| :: IdLess(recs[i].id, recs[j].id))
      && forall id | id in stored :: exists i :: 0 <= i < |recs| && recs[i].id == id
  {
    hide IdLess, SortedIds, Elements, Distinct;
    var ids, recs := SortedIds(stored.Keys), RecordList(stored);
    SortedIdsListed(stored.Keys);
    forall i | 0 <= i < |recs| ensures recs[i].id == ids[i] && ids[i] in stored { assert ids[i] in ids; }
    forall id | id in stored ensures exists i :: 0 <= i < |recs| && recs[i].id == id {
      assert id in ids;
      var i :| 0 <= i < |ids| && ids[i] == id;
      assert recs[i].id == id;
    }
  }

  lemma StoredAddable(stored: map<RecordId, Stored>, dim: nat)
    requires forall id | id in stored :: id != [] && |stored[id].vector| == dim
    ensures Addable(RecordList(stored), dim)
  {
    ListedInOrder(stored);
    hide IdLess, RecordList;
    var recs := RecordList(stored);
    forall i | 0 <= i < |recs| ensures recs[i].id != [] && |recs[i].vector| == dim {
      assert recs[i].id in stored;
    }
    IdsDistinct(recs);
  }

  /** Building an index lays the records out in id order: node i of a graph, or entry i of an inverted file, is the i-th
      stored record, and the node is on the layers up to the i-th level drawn. */
  lemma BuiltInOrder(kind: IndexKind, dim: nat, metric: Metric, stored: map<RecordId, Stored>, levels: nat -> nat,
                     b: IndexState)
    requires IndexBuilt(kind, dim, metric, RecordList(stored), levels, b)
    requires forall id | id in stored :: id != [] && |stored[id].vector| == dim
    requires kind.GraphKind? ==> kind.efConstruction >= 1
    ensures kind.GraphKind? ==> b.GraphState? && NodesOf(b.graph, RecordList(stored), levels)
    ensures kind.GraphKind? ==> WellFormed(b.graph, Params(dim, metric, kind.m, kind.efConstruction, kind.seed))
    ensures kind.FileKind? ==> b.FileState? && b.dirty && EntriesAre(b.entries, b.ids, RecordList(stored))
  {
    StoredAddable(stored, dim);
    hide RecordList, IndexFilled, NothingIndexed, NodesOf, EntriesAre, WellFormed;
    var recs := RecordList(stored);
    var none :| NothingIndexed(kind, none) && IndexFilled(kind, dim, metric, none, recs, levels, b);
    if kind.GraphKind? { GraphInOrder(kind, dim, metric, none, recs, levels, b); }
    if kind.FileKind? { FileInOrder(kind, dim, metric, none, recs, levels, b); }
  }
}
