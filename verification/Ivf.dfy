/** The IVF index: lazily rebuilt k-means partitions behind a dirty flag, and probing. */
module Ivf {
  import opened Ordering
  import opened Vectors
  import opened Errors
  import opened Kernels
  import opened Lloyd
  import opened IvfModel
  import opened SnapshotFormat

  /** The index region of an IVF index: its construction parameters. */
  function Region(nlist: U32, seed: U64): Bytes { LE(nlist, 4) + LE(seed, 8) }

  /** A new record takes the next slot. */
  predicate Appended(before: seq<Entry>, idsBefore: map<RecordId, nat>, id: RecordId, vec: Vector,
                     after: seq<Entry>, idsAfter: map<RecordId, nat>) {
    after == before + [Entry(id, vec, false)] && idsAfter == idsBefore[id := |before|]
  }

  /** A known record keeps its slot under the new vector, live. */
  predicate Replaced(before: seq<Entry>, idsBefore: map<RecordId, nat>, id: RecordId, vec: Vector,
                     after: seq<Entry>, idsAfter: map<RecordId, nat>) {
    && idsAfter == idsBefore && id in idsBefore && idsBefore[id] < |before|
    && after == before[idsBefore[id] := Entry(id, vec, false)]
  }

  /** A removed record keeps its slot as a tombstone. */
  predicate Tombstoned(before: seq<Entry>, idsBefore: map<RecordId, nat>, id: RecordId, after: seq<Entry>,
                       idsAfter: map<RecordId, nat>) {
    && idsAfter == idsBefore && id in idsBefore && idsBefore[id] < |before|
    && after == before[idsBefore[id] := Entry(id, before[idsBefore[id]].vector, true)]
  }

  class IvfIndex {
    const dimensionality: nat
    const metric: Metric
    const requestedNlist: nat
    const seed: nat
    const shuffle: Shuffle

    var entries: seq<Entry>
    var idToIndex: map<RecordId, nat>
    var liveCount: nat

    var dirty: bool
    var centroids: seq<Point>
    var invertedLists: seq<seq<nat>>

    function P(): Params { Params(dimensionality, metric, requestedNlist, seed, shuffle) }

    ghost predicate Stored()
      reads this
    {
      Permutes(shuffle) && Named(entries, idToIndex, dimensionality) && liveCount == |LiveSet(entries)|
    }

    /** A clean index holds exactly the partition a rebuild would produce now. */
    ghost predicate Valid()
      reads this
    {
      Stored() && (!dirty ==> Partition(centroids, invertedLists) == Rebuilt(entries, P()))
    }

    ghost function Records(): map<RecordId, Vector>
      requires Stored()
      reads this
    {
      Contents(entries, idToIndex)
    }

    constructor (dimensionality: nat, metric: Metric, nlist: nat, seed: nat, shuffle: Shuffle)
      requires Permutes(shuffle)
      ensures Valid() && Records() == map[] && entries == [] && idToIndex == map[] && liveCount == 0 && dirty
      ensures P() == Params(dimensionality, metric, nlist, seed, shuffle)
    {
      this.dimensionality, this.metric, this.requestedNlist, this.seed, this.shuffle :=
        dimensionality, metric, nlist, seed, shuffle;
      entries, idToIndex, liveCount, dirty, centroids, invertedLists := [], map[], 0, true, [], [];
      new;
      assert LiveSet([]) == {};
    }

    /** Adds, replaces or revives a record, and invalidates the partition. */
    method Add(id: RecordId, vec: Vector) returns (s: Status)
      requires Valid()
      modifies this
      ensures Valid()
      ensures s == if id == [] then Error(InvalidIdentifier)
                   else if |vec| != dimensionality then Error(DimensionMismatch) else Ok
      ensures s.Error? ==> unchanged(this)
      ensures s.Ok? ==> dirty && Records() == old(Records())[id := vec]
      ensures s.Ok? && id !in old(idToIndex) ==> Appended(old(entries), old(idToIndex), id, vec, entries, idToIndex)
      ensures s.Ok? && id in old(idToIndex) ==> Replaced(old(entries), old(idToIndex), id, vec, entries, idToIndex)
    {
      if id == [] {
        return Error(InvalidIdentifier);
      }
      if |vec| != dimensionality {
        return Error(DimensionMismatch);
      }
      hide Named;
      if id in idToIndex {
        Replace(id, vec);
        return Ok;
      }
      Append(id, vec);
      return Ok;
    }

    method Replace(id: RecordId, vec: Vector)
      requires Stored() && id in idToIndex && |vec| == dimensionality
      modifies this`entries, this`liveCount, this`dirty
      ensures Stored() && dirty && Records() == old(Records())[id := vec]
      ensures Replaced(old(entries), old(idToIndex), id, vec, entries, idToIndex)
    {
      ReplaceKeeps(entries, idToIndex, dimensionality, id, vec);
      var slot := idToIndex[id];
      var wasDeleted := entries[slot].deleted;
      entries := entries[slot := entries[slot].(vector := vec)];
      if wasDeleted {
        entries := entries[slot := entries[slot].(deleted := false)];
        liveCount := liveCount + 1;
      }
      dirty := true;
      assert entries == old(entries)[slot := Entry(old(entries)[slot].id, vec, false)];
      hide Named;
    }

    method Append(id: RecordId, vec: Vector)
      requires Stored() && id !in idToIndex && |vec| == dimensionality && id != []
      modifies this`entries, this`idToIndex, this`liveCount, this`dirty
      ensures Stored() && dirty && Records() == old(Records())[id := vec]
      ensures Appended(old(entries), old(idToIndex), id, vec, entries, idToIndex)
    {
      hide Named;
      AppendKeeps(entries, idToIndex, dimensionality, id, vec);
      var slot := |entries|;
      entries := entries + [Entry(id, vec, false)];
      idToIndex := idToIndex[id := slot];
      liveCount := liveCount + 1;
      dirty := true;
    }

    /** Tombstones a live record, and invalidates the partition. */
    method Remove(id: RecordId) returns (s: Status)
      requires Valid()
      modifies this
      ensures Valid()
      ensures s == if id in old(Records()) then Ok else Error(NotFound)
      ensures s.Error? ==> unchanged(this)
      ensures s.Ok? ==> dirty && Records() == old(Records()) - {id}
      ensures s.Ok? ==> Tombstoned(old(entries), old(idToIndex), id, entries, idToIndex)
    {
      hide Named, LiveSet, Rebuilt, Permutes;
      SlotInside(id);
      if id !in idToIndex {
        return Error(NotFound);
      }
      var slot := idToIndex[id];
      if entries[slot].deleted {
        return Error(NotFound);
      }
      Tombstone(id);
      return Ok;
    }

    lemma SlotInside(id: RecordId)
      requires Stored()
      ensures id in idToIndex ==> idToIndex[id] < |entries|
      ensures id in Records() <==> id in idToIndex && !entries[idToIndex[id]].deleted
    {
    }

    method Tombstone(id: RecordId)
      requires Stored() && id in idToIndex && !entries[idToIndex[id]].deleted
      modifies this`entries, this`liveCount, this`dirty
      ensures Stored() && dirty && Records() == old(Records()) - {id}
      ensures Tombstoned(old(entries), old(idToIndex), id, entries, idToIndex)
    {
      RemoveKeeps(entries, idToIndex, dimensionality, id);
      var slot := idToIndex[id];
      entries := entries[slot := entries[slot].(deleted := true)];
      liveCount := liveCount - 1;
      dirty := true;
      hide Named, LiveSet, IvfModel.Contents;
    }

    /** The live slots in slot order. */
    method CollectLive() returns (live: seq<nat>)
      ensures live == Live(entries)
    {
      live := [];
      for i := 0 to |entries|
        invariant live == LiveSlots(entries, i)
      {
        if !entries[i].deleted {
          live := live + [i];
        }
      }
    }

    /** The vectors at some slots as points. */
    method CopyPoints(slots: seq<nat>) returns (points: seq<Point>)
      requires forall x: nat | x in slots :: x < |entries|
      ensures points == PointsAt(entries, slots)
    {
      points := [];
      for i := 0 to |slots|
        invariant |points| == i && points == PointsAt(entries, slots)[..i]
      {
        assert slots[i] in slots;
        points := points + [Values(entries[slots[i]].vector)];
      }
    }

    /** Files every live slot under its assigned cell. */
    method FileSlots(live: seq<nat>, assignment: seq<nat>, k: nat) returns (lists: seq<seq<nat>>)
      requires |assignment| == |live| && Within(assignment, k)
      ensures lists == ListsOf(live, assignment, k)
    {
      lists := seq(k, _ => []);
      for i := 0 to |live|
        invariant lists == ListsOf(live[..i], assignment[..i], k)
      {
        assert live[..i + 1][..i] == live[..i] && assignment[..i + 1][..i] == assignment[..i];
        var cell := assignment[i];
        ghost var before := lists;
        lists := lists[cell := lists[cell] + [live[i]]];
        forall c | 0 <= c < k ensures lists[c] == ListFor(live[..i + 1], assignment[..i + 1], c) {
          assert before[c] + [] == before[c];
        }
      }
      assert live[..|live|] == live && assignment[..|live|] == assignment;
    }

    /** The number of cells to build. */
    method ChooseCells(live: nat) returns (k: nat)
      requires live > 0
      ensures k == CellCount(requestedNlist, live)
    {
      var cells: int := requestedNlist;
      if cells == 0 {
        var heuristic := Root(live);
        cells := if heuristic < 1 then 1 else heuristic;
      }
      if cells > live {
        cells := live;
      }
      if cells < 1 {
        cells := 1;
      }
      k := cells;
    }

    /** Rebuilds the partition of a dirty index; a clean one is left alone. */
    method EnsurePartitionsBuilt()
      requires Valid()
      modifies this`dirty, this`centroids, this`invertedLists
      ensures Valid() && !dirty
    {
      if !dirty {
        return;
      }
      hide Clustered, ListsOf, CellCount, Named, Permutes, LiveSlots;
      centroids, invertedLists := [], [];
      var live := CollectLive();
      if live == [] {
        dirty := false;
        return;
      }
      Rebuild(live);
      dirty := false;
    }

    method Rebuild(live: seq<nat>)
      requires Stored() && live == Live(entries) && live != []
      modifies this`centroids, this`invertedLists
      ensures Partition(centroids, invertedLists) == Rebuilt(entries, P())
    {
      hide Clustered, ListsOf, CellCount, LiveSlots;
      var k := ChooseCells(|live|);
      var shuffled := shuffle(live);
      ShuffledFacts(shuffle, live);
      PrefixMembers(shuffled, k);
      var initial := CopyPoints(shuffled[..k]);
      var points := CopyPoints(live);
      PointsShaped(entries, live, dimensionality);
      PointsShaped(entries, shuffled[..k], dimensionality);
      var s := Cluster(points, initial, dimensionality);
      centroids := s.centroids;
      invertedLists := FileSlots(live, s.assignment, k);
    }

    /** The cells to probe, by distance from the query and then by index. */
    method RankCells(q: Point, nprobe: nat) returns (cells: seq<nat>)
      requires Shaped(centroids, |q|)
      ensures cells == Probed(q, centroids, nprobe)
    {
      var dists: seq<CellDist> := [];
      for c := 0 to |centroids|
        invariant |dists| == c && dists == CellDists(q, centroids)[..c]
      {
        var d := ScalarL2Squared(q, centroids[c]);
        dists := dists + [CellDist(d, c)];
      }
      assert dists == CellDists(q, centroids);
      CellOrder();
      var sorted := Sort(dists, CellLess);
      cells := CellsOf(sorted[..Probes(nprobe, |centroids|)]);
    }

    /** Scores the live records of the given cells. */
    method ScanCells(q: Vector, cells: seq<nat>) returns (out: seq<Candidate>)
      requires Within(cells, |invertedLists|)
      requires forall x: nat | x in Gather(invertedLists, cells) :: x < |entries| && !entries[x].deleted
      ensures out == CandidatesAt(entries, metric, q, Gather(invertedLists, cells))
    {
      hide CandidatesAt;
      out := [];
      EmptyGather(q);
      for p := 0 to |cells|
        invariant forall x: nat | x in Gather(invertedLists, cells[..p]) :: x < |entries| && !entries[x].deleted
        invariant out == CandidatesAt(entries, metric, q, Gather(invertedLists, cells[..p]))
      {
        GatherPrefix(invertedLists, cells, p);
        ghost var before := Gather(invertedLists, cells[..p]);
        out := ScanList(q, invertedLists[cells[p]], out, before);
      }
      assert cells[..|cells|] == cells;
    }

    lemma EmptyGather(q: Vector)
      ensures CandidatesAt(entries, metric, q, []) == []
    {
    }

    /** Scores the live records of one list. */
    method ScanList(q: Vector, list: seq<nat>, start: seq<Candidate>, ghost before: seq<nat>)
        returns (out: seq<Candidate>)
      requires forall x: nat | x in before || x in list :: x < |entries| && !entries[x].deleted
      requires start == CandidatesAt(entries, metric, q, before)
      ensures out == CandidatesAt(entries, metric, q, before + list)
    {
      out := start;
      for i := 0 to |list|
        invariant |out| == |before| + i && out == CandidatesAt(entries, metric, q, before + list)[..|before| + i]
      {
        assert (before + list)[|before| + i] == list[i] && list[i] in list;
        var entry := entries[list[i]];
        if entry.deleted {
          continue;
        }
        out := out + [Candidate(entry.id, Score(metric, q, entry.vector))];
      }
    }

    /** Probes the nearest cells: the k nearest of the records filed there, and of all records when every cell is
        probed. */
    method Search(q: Vector, k: nat, nprobe: nat) returns (out: seq<Candidate>, ghost cells: seq<nat>)
      requires Valid() && |q| == dimensionality
      modifies this`dirty, this`centroids, this`invertedLists
      ensures Valid()
      ensures var r := Rebuilt(entries, P());
        && NearestCells(Values(q), r.centroids, nprobe, cells)
        && NearestK(out, Filed(entries, idToIndex, r.lists, cells), metric, q, k)
        && (nprobe >= |r.centroids| ==> out == TopK(Records(), metric, q, k))
    {
      hide Rebuilt, Probed, NearestK, NearestCells, Filed, TopK;
      ghost var r := Rebuilt(entries, P());
      cells := Probed(Values(q), r.centroids, nprobe);
      ProbedAreNearest(Values(q), r.centroids, nprobe);
      TopKNearest(Filed(entries, idToIndex, r.lists, cells), metric, q, k);
      out := [];
      if k == 0 || liveCount == 0 {
        NothingStored(q, k, nprobe);
        return;
      }
      EnsurePartitionsBuilt();
      if |centroids| == 0 {
        NoCells();
        return;
      }
      out := Probe(q, k, nprobe);
      if nprobe >= |centroids| {
        FullProbeCovers(entries, idToIndex, P(), Values(q), nprobe);
      }
    }

    method Probe(q: Vector, k: nat, nprobe: nat) returns (out: seq<Candidate>)
      requires Valid() && |q| == dimensionality && !dirty
      ensures out == TopK(Filed(entries, idToIndex, invertedLists, Probed(Values(q), centroids, nprobe)), metric, q, k)
    {
      hide Rebuilt, Probed, Filed, CandidatesAt;
      RebuiltPartitions(entries, P());
      ProbedAreNearest(Values(q), centroids, nprobe);
      var cells := RankCells(Values(q), nprobe);
      ScoredIsFiled(entries, idToIndex, dimensionality, metric, q, invertedLists, cells);
      out := ScanCells(q, cells);
      assert Distinct(out);
      SortedIsTopK(out, Filed(entries, idToIndex, invertedLists, cells), metric, q, k);
      CandidateOrder();
      out := Prefix(Sort(out, CandidateLess), k);
    }

    lemma NothingStored(q: Vector, k: nat, nprobe: nat)
      requires Valid() && |q| == dimensionality && (k == 0 || liveCount == 0)
      ensures var r := Rebuilt(entries, P());
        && TopK(Filed(entries, idToIndex, r.lists, Probed(Values(q), r.centroids, nprobe)), metric, q, k) == []
        && TopK(Records(), metric, q, k) == []
    {
      hide Rebuilt, Probed;
      if k > 0 {
        forall id | id in Records() ensures idToIndex[id] in LiveSet(entries) {
        }
        assert LiveSet(entries) == {};
        assert Records() == map[];
        var r := Rebuilt(entries, P());
        assert Filed(entries, idToIndex, r.lists, Probed(Values(q), r.centroids, nprobe)) == map[];
        assert AllScored(map[], metric, q) == {};
      }
    }

    lemma NoCells()
      requires Valid() && !dirty && liveCount > 0
      ensures centroids != []
    {
      var x :| x in LiveSet(entries);
      assert x in Live(entries);
    }

    /** Writes the construction parameters. */
    method Serialize() returns (bytes: Bytes)
      requires requestedNlist < TWO32 && seed < TWO64
      ensures bytes == Region(requestedNlist, seed)
    {
      var w := new ByteWriter();
      w.PutU32(requestedNlist);
      w.PutU64(seed);
      bytes := w.buffer;
    }
  }

  /** The slots of a prefix of the cells, one more cell, and the whole. */
  lemma {:induction false} GatherPrefix(lists: seq<seq<nat>>, cells: seq<nat>, p: nat)
    requires Within(cells, |lists|) && p < |cells|
    ensures Gather(lists, cells[..p + 1]) == Gather(lists, cells[..p]) + lists[cells[p]]
    ensures forall x: nat | x in Gather(lists, cells[..p + 1]) :: x in Gather(lists, cells)
    decreases |cells|
  {
    assert cells[..p + 1][..p] == cells[..p];
    var n := |cells| - 1;
    if p < n {
      GatherPrefix(lists, cells[..n], p);
      assert cells[..n][..p] == cells[..p] && cells[..n][..p + 1] == cells[..p + 1];
    } else {
      assert cells[..p + 1] == cells;
    }
  }
}
