/** When an inverted file keeps its partition through save and load: the exact condition. */
module IvfExact {
  import opened Ordering
  import opened Identifiers
  import opened Vectors
  import opened Kernels
  import opened Lloyd
  import opened IvfModel
  import opened IvfReload
  import opened Settled

  /** A permutation leaves no place out. */
  lemma EveryPlace(shuffle: Shuffle, n: nat, i: nat)
    requires Permutes(shuffle) && i < n
    ensures i in shuffle(Iota(n))
  {
    assert Iota(n)[i] == i && i in multiset(Iota(n));
    assert multiset(shuffle(Iota(n))) == multiset(Iota(n));
  }

  function LivePoints(entries: seq<Entry>): seq<Point> { PointsAt(entries, Live(entries)) }

  /** With a cell per record, the records are the centroids, in shuffled order. */
  lemma OwnCells(entries: seq<Entry>, p: Params)
    requires VectorsFit(entries, p.dimensionality) && Permutes(p.shuffle) && Positional(p.shuffle)
    requires Live(entries) != [] && p.nlist == |Live(entries)|
    ensures var n, centroids := |Live(entries)|, Rebuilt(entries, p).centroids;
      && |centroids| == n == |p.shuffle(Iota(n))| && forall j | 0 <= j < n ::
        p.shuffle(Iota(n))[j] < n && centroids[j] == LivePoints(entries)[p.shuffle(Iota(n))[j]]
  {
    var n, points, seeds := |Live(entries)|, LivePoints(entries), Seeds(entries, p);
    assert MovedBy(p.shuffle, Live(entries));
    hide Values, LiveSlots, Positional;
    var perm := p.shuffle(Iota(n));
    assert CellCount(p.nlist, n) == n;
    assert p.shuffle(Live(entries))[..n] == p.shuffle(Live(entries));
    assert forall j | 0 <= j < n :: seeds[j] == points[perm[j]];
    PointsShaped(entries, Live(entries), p.dimensionality);
    forall i | 0 <= i < n ensures points[i] in seeds {
      EveryPlace(p.shuffle, n, i);
      var j :| 0 <= j < n && perm[j] == i;
      assert seeds[j] == points[i];
    }
    hide PointsAt, Seeds, Permutes;
    RunStays(points, seeds, p.dimensionality, Rounds(points, seeds, p.dimensionality, 1));
  }

  /** Two listings of the same records, each with the points of its records. */
  ghost predicate Relisted(values: map<RecordId, Point>, listed: seq<RecordId>, before: seq<Point>,
                           sorted: seq<RecordId>, after: seq<Point>) {
    && |listed| == |before| == |sorted| == |after| && Distinct(sorted)
    && (forall i | 0 <= i < |before| :: listed[i] in values && before[i] == values[listed[i]])
    && (forall i | 0 <= i < |after| :: sorted[i] in listed && sorted[i] in values && after[i] == values[sorted[i]])
  }

  /** Distinct points in one order are distinct in the other, and the same points in both orders means the same
      order. */
  lemma RelistedPoints(values: map<RecordId, Point>, listed: seq<RecordId>, before: seq<Point>,
                       sorted: seq<RecordId>, after: seq<Point>)
    requires Relisted(values, listed, before, sorted, after) && Distinct(before)
    ensures Distinct(after) && (before == after ==> listed == sorted)
  {
    forall i, j | 0 <= i < j < |after| ensures after[i] != after[j] {
      var r :| 0 <= r < |listed| && listed[r] == sorted[i];
      var s :| 0 <= s < |listed| && listed[s] == sorted[j];
      assert before[r] == after[i] && before[s] == after[j];
    }
    if before == after {
      forall i | 0 <= i < |sorted| ensures listed[i] == sorted[i] {
        var r :| 0 <= r < |listed| && listed[r] == sorted[i];
        assert before[r] == after[i] == before[i];
      }
    }
  }

  lemma LivePoint(entries: seq<Entry>, ids: map<RecordId, nat>, dim: nat, r: nat)
    requires Named(entries, ids, dim) && r < |Live(entries)|
    ensures r < |LiveIds(entries)| && LiveIds(entries)[r] in Contents(entries, ids)
    ensures LivePoints(entries)[r] == Values(Contents(entries, ids)[LiveIds(entries)[r]])
  {
    LiveInside(entries);
    hide LiveSlots, Values;
    assert ids[entries[Live(entries)[r]].id] == Live(entries)[r];
  }

  lemma ReloadedPoint(vectors: map<RecordId, Vector>, dim: nat, i: nat)
    requires i < |SortedIds(vectors.Keys)| && forall id | id in vectors :: |vectors[id]| == dim
    ensures SortedIds(vectors.Keys)[i] in vectors && i < |Live(Refilled(vectors))|
    ensures LivePoints(Refilled(vectors))[i] == Values(vectors[SortedIds(vectors.Keys)[i]])
  {
    RefilledFits(vectors, dim);
    RefilledAt(vectors, i);
    hide Refilled, LiveSlots, Values, SortedIds;
  }

  function PointMap(vectors: map<RecordId, Vector>): map<RecordId, Point> {
    map id | id in vectors :: Values(vectors[id])
  }

  lemma PointsLength(entries: seq<Entry>)
    ensures |LivePoints(entries)| == |Live(entries)|
  {
    hide LiveSlots;
  }

  lemma ListedPoints(entries: seq<Entry>, ids: map<RecordId, nat>, dim: nat)
    requires Named(entries, ids, dim)
    ensures var listed, before, values := LiveIds(entries), LivePoints(entries), PointMap(Contents(entries, ids));
      |listed| == |before| == |Live(entries)|
      && forall r | 0 <= r < |before| :: listed[r] in values && before[r] == values[listed[r]]
  {
    LiveIdsLength(entries);
    PointsLength(entries);
    assert forall id | id in ids :: ids[id] < |entries|;
    hide Contents, Live, LivePoints, LiveIds, Named, Values;
    forall r | 0 <= r < |Live(entries)|
      ensures LiveIds(entries)[r] in Contents(entries, ids)
      ensures LivePoints(entries)[r] == Values(Contents(entries, ids)[LiveIds(entries)[r]])
    {
      LivePoint(entries, ids, dim, r);
    }
  }

  lemma ReloadedPoints(vectors: map<RecordId, Vector>, dim: nat)
    requires forall id | id in vectors :: |vectors[id]| == dim
    ensures var sorted, after, values := SortedIds(vectors.Keys), LivePoints(Refilled(vectors)), PointMap(vectors);
      |sorted| == |after| && Distinct(sorted)
      && forall i | 0 <= i < |after| :: sorted[i] in values && after[i] == values[sorted[i]]
  {
    SortedIdsListed(vectors.Keys);
    RefilledFits(vectors, dim);
    PointsLength(Refilled(vectors));
    hide Refilled, Live, SortedIds, LivePoints, Values, Distinct;
    forall i | 0 <= i < |SortedIds(vectors.Keys)|
      ensures LivePoints(Refilled(vectors))[i] == PointMap(vectors)[SortedIds(vectors.Keys)[i]]
    {
      ReloadedPoint(vectors, dim, i);
    }
  }

  /** What a load lists is live. */
  lemma ReloadedIsLive(entries: seq<Entry>, ids: map<RecordId, nat>, dim: nat)
    requires Named(entries, ids, dim)
    ensures forall id | id in SortedIds(Contents(entries, ids).Keys) :: id in LiveIds(entries)
  {
    SortedIdsListed(Contents(entries, ids).Keys);
    hide SortedIds, LiveIds;
    forall id | id in SortedIds(Contents(entries, ids).Keys) ensures id in LiveIds(entries) {
      LiveIdMembers(entries, ids, dim, id);
    }
  }

  lemma RelistedFrom(values: map<RecordId, Point>, listed: seq<RecordId>, before: seq<Point>,
                     sorted: seq<RecordId>, after: seq<Point>)
    requires |listed| == |before| == |sorted| == |after| && Distinct(sorted)
    requires forall i | 0 <= i < |before| :: listed[i] in values && before[i] == values[listed[i]]
    requires forall i | 0 <= i < |after| :: sorted[i] in values && after[i] == values[sorted[i]]
    requires forall id | id in sorted :: id in listed
    ensures Relisted(values, listed, before, sorted, after)
  {
  }

  lemma ReloadRelists(entries: seq<Entry>, ids: map<RecordId, nat>, dim: nat)
    requires Named(entries, ids, dim)
    ensures var vectors := Contents(entries, ids);
      Relisted(PointMap(vectors), LiveIds(entries), LivePoints(entries), SortedIds(vectors.Keys),
               LivePoints(Refilled(vectors)))
  {
    hide Refilled, Contents, Live, SortedIds, LivePoints, LiveIds, Values, Distinct, PointMap, IdLess, Relisted;
    var vectors, listed, sorted := Contents(entries, ids), LiveIds(entries), SortedIds(Contents(entries, ids).Keys);
    VectorsSized(entries, ids, dim);
    ListedPoints(entries, ids, dim);
    LiveIdsSorted(entries, ids, dim);
    ReloadedIsLive(entries, ids, dim);
    ReloadedPoints(vectors, dim);
    RelistedFrom(PointMap(vectors), listed, LivePoints(entries), sorted, LivePoints(Refilled(vectors)));
  }

  lemma VectorsSized(entries: seq<Entry>, ids: map<RecordId, nat>, dim: nat)
    requires Named(entries, ids, dim)
    ensures forall id | id in Contents(entries, ids) :: |Contents(entries, ids)[id]| == dim
  {
  }

  // ---------------------------------------------------------------- the seeds and the assignment

  /** A positional shuffle seeds with the points at given places. */
  lemma SeedPlaces(entries: seq<Entry>, p: Params, j: nat)
    requires VectorsFit(entries, p.dimensionality) && Permutes(p.shuffle) && Positional(p.shuffle)
    requires Live(entries) != [] && j < |Seeds(entries, p)|
    ensures var n, perm := |Live(entries)|, p.shuffle(Iota(|Live(entries)|));
      j < |perm| == n && perm[j] < n == |LivePoints(entries)| && Seeds(entries, p)[j] == LivePoints(entries)[perm[j]]
  {
    assert MovedBy(p.shuffle, Live(entries));
    hide Values, LiveSlots, Positional, CellCount;
  }

  /** The same points in slot order give the same k-means. */
  lemma SameState(a: seq<Entry>, b: seq<Entry>, p: Params)
    requires VectorsFit(a, p.dimensionality) && VectorsFit(b, p.dimensionality) && Live(a) != [] && Live(b) != []
    requires Permutes(p.shuffle) && Positional(p.shuffle) && LivePoints(a) == LivePoints(b)
    ensures |Live(a)| == |Live(b)| && FinalState(a, p) == FinalState(b, p)
  {
    PointsLength(a);
    PointsLength(b);
    hide Live, CellCount, Positional, Permutes, Clustered;
    forall j | 0 <= j < |Seeds(a, p)| ensures Seeds(a, p)[j] == Seeds(b, p)[j] {
      SeedPlaces(a, p, j);
      SeedPlaces(b, p, j);
    }
    hide Seeds;
    assert Seeds(a, p) == Seeds(b, p);
  }

  lemma RunAssigns(points: seq<Point>, initial: seq<Point>, dim: nat, n: nat)
    requires Shaped(points, dim) && Shaped(initial, dim) && initial != [] && n > 0
    ensures Run(points, initial, dim, n).assignment
            == Assign(points, Run(points, initial, dim, n - 1).centroids, dim)
  {
    hide Assign, Recompute, Accumulate;
  }

  /** The final assignment sends every point to the nearest of some centroids. */
  lemma FinalIsNearest(entries: seq<Entry>, p: Params) returns (centroids: seq<Point>)
    requires VectorsFit(entries, p.dimensionality) && Permutes(p.shuffle) && Live(entries) != []
    ensures centroids != [] && Shaped(centroids, p.dimensionality) && Shaped(LivePoints(entries), p.dimensionality)
    ensures FinalState(entries, p).assignment == Assign(LivePoints(entries), centroids, p.dimensionality)
  {
    PointsShaped(entries, Live(entries), p.dimensionality);
    hide Live, Seeds, Permutes, Assign, Run, Rounds, PointsAt, Values;
    var points, seeds, dim := LivePoints(entries), Seeds(entries, p), p.dimensionality;
    var n := Rounds(points, seeds, dim, 1);
    RunAssigns(points, seeds, dim, n);
    centroids := Run(points, seeds, dim, n - 1).centroids;
  }

  /** A listing of exactly the given records, each with its point. */
  ghost predicate Lists(values: map<RecordId, Point>, listed: seq<RecordId>, points: seq<Point>) {
    && |listed| == |points| && (forall i | 0 <= i < |listed| :: listed[i] in values && points[i] == values[listed[i]])
    && forall id | id in values :: id in listed
  }

  /** The records whose nearest centroid is the given one. */
  ghost function NearestTo(values: map<RecordId, Point>, centroids: seq<Point>, dim: nat, c: nat): set<RecordId>
    requires centroids != [] && Shaped(centroids, dim)
  {
    set id | id in values && |values[id]| == dim && Nearest(values[id], centroids) == c
  }

  lemma IdsListed(entries: seq<Entry>, assignment: seq<nat>, c: nat, id: RecordId)
    requires |assignment| == |Live(entries)|
    ensures |LiveIds(entries)| == |assignment|
    ensures id in IdsAt(entries, ListFor(Live(entries), assignment, c))
            <==> exists i | 0 <= i < |assignment| :: LiveIds(entries)[i] == id && assignment[i] == c
  {
    LiveIdsLength(entries);
    var live, list := Live(entries), ListFor(Live(entries), assignment, c);
    hide Live, ListFor;
    if id in IdsAt(entries, list) {
      var k :| 0 <= k < |list| && IdsAt(entries, list)[k] == id;
      ListMembers(live, assignment, c, list[k]);
      var i :| 0 <= i < |live| && live[i] == list[k] && assignment[i] == c;
      assert LiveIds(entries)[i] == id;
    }
    if i :| 0 <= i < |assignment| && LiveIds(entries)[i] == id && assignment[i] == c {
      ListMembers(live, assignment, c, live[i]);
      var k :| 0 <= k < |list| && list[k] == live[i];
      assert IdsAt(entries, list)[k] == id;
    }
  }

  /** The members of a cell do not depend on the order of the records. */
  lemma MembersByPoint(entries: seq<Entry>, values: map<RecordId, Point>, centroids: seq<Point>, dim: nat, c: nat)
    requires Lists(values, LiveIds(entries), LivePoints(entries)) && centroids != [] && Shaped(centroids, dim)
    requires Shaped(LivePoints(entries), dim) && |LivePoints(entries)| == |Live(entries)|
    ensures var list := ListFor(Live(entries), Assign(LivePoints(entries), centroids, dim), c);
      Elements(IdsAt(entries, list)) == NearestTo(values, centroids, dim, c)
  {
    hide Live, ListFor, LiveIds, LivePoints, IdsAt, Nearest, Lists, NearestTo, Assign;
    var a := Assign(LivePoints(entries), centroids, dim);
    forall id
      ensures id in IdsAt(entries, ListFor(Live(entries), a, c)) <==> id in NearestTo(values, centroids, dim, c)
    {
      IdsListed(entries, a, c, id);
      ListedNear(values, LiveIds(entries), LivePoints(entries), centroids, dim, c, id);
    }
  }

  /** A record is near a cell exactly when its listed point is assigned to it. */
  lemma ListedNear(values: map<RecordId, Point>, listed: seq<RecordId>, points: seq<Point>, centroids: seq<Point>,
                   dim: nat, c: nat, id: RecordId)
    requires Lists(values, listed, points) && centroids != [] && Shaped(centroids, dim) && Shaped(points, dim)
    ensures (exists i | 0 <= i < |listed| :: listed[i] == id && Assign(points, centroids, dim)[i] == c)
      <==> id in NearestTo(values, centroids, dim, c)
  {
    hide Nearest;
    if id in NearestTo(values, centroids, dim, c) {
      var i :| 0 <= i < |listed| && listed[i] == id;
      assert Assign(points, centroids, dim)[i] == c;
    }
  }

  // ---------------------------------------------------------------- what a reload preserves

  /** The partition for a requested cell count survives a reload: the same centroids, the same members of each cell. */
  ghost predicate PreservedAt(entries: seq<Entry>, ids: map<RecordId, nat>, p: Params, nlist: nat)
    requires VectorsFit(entries, p.dimensionality) && Permutes(p.shuffle)
    requires (forall id | id in ids :: ids[id] < |entries|)
    requires VectorsFit(Refilled(Contents(entries, ids)), p.dimensionality)
  {
    FilingOf(Refilled(Contents(entries, ids)), p.(nlist := nlist)) == FilingOf(entries, p.(nlist := nlist))
  }

  /** The same with the order of every cell's list. */
  ghost predicate ListedAt(entries: seq<Entry>, ids: map<RecordId, nat>, p: Params, nlist: nat)
    requires VectorsFit(entries, p.dimensionality) && Permutes(p.shuffle)
    requires (forall id | id in ids :: ids[id] < |entries|)
    requires VectorsFit(Refilled(Contents(entries, ids)), p.dimensionality)
  {
    ListingOf(Refilled(Contents(entries, ids)), p.(nlist := nlist)) == ListingOf(entries, p.(nlist := nlist))
  }

  /** The vectors in slot order are the vectors in id order. */
  ghost predicate PointsInIdOrder(entries: seq<Entry>, ids: map<RecordId, nat>)
    requires forall id | id in ids :: ids[id] < |entries|
  {
    LivePoints(entries) == LivePoints(Refilled(Contents(entries, ids)))
  }

  /** With a cell per record, unchanged centroids mean unchanged points. */
  lemma PreservedPoints(entries: seq<Entry>, again: seq<Entry>, p: Params)
    requires VectorsFit(entries, p.dimensionality) && VectorsFit(again, p.dimensionality)
    requires Permutes(p.shuffle) && Positional(p.shuffle) && |Live(again)| == |Live(entries)| == p.nlist
    requires Rebuilt(again, p).centroids == Rebuilt(entries, p).centroids
    ensures LivePoints(again) == LivePoints(entries)
  {
    hide Live, LivePoints, Rebuilt, Permutes, Positional;
    var n, before, after := |Live(entries)|, LivePoints(entries), LivePoints(again);
    PointsLength(again);
    PointsLength(entries);
    if n > 0 {
      OwnCells(entries, p);
      OwnCells(again, p);
      forall i | 0 <= i < n ensures before[i] == after[i] {
        EveryPlace(p.shuffle, n, i);
        var j :| 0 <= j < n && p.shuffle(Iota(n))[j] == i;
      }
    }
  }

  lemma EntriesList(entries: seq<Entry>, ids: map<RecordId, nat>, dim: nat)
    requires Named(entries, ids, dim)
    ensures Lists(PointMap(Contents(entries, ids)), LiveIds(entries), LivePoints(entries))
  {
    ListedPoints(entries, ids, dim);
    hide LivePoints, LiveIds, Live, Values;
    forall id | id in PointMap(Contents(entries, ids)) ensures id in LiveIds(entries) {
      LiveIdMembers(entries, ids, dim, id);
    }
  }

  /** A reload lists the ids in order. */
  lemma ReloadedIds(vectors: map<RecordId, Vector>)
    ensures LiveIds(Refilled(vectors)) == SortedIds(vectors.Keys)
  {
    SortedIdsListed(vectors.Keys);
    hide SortedIds;
    EveryLive(Refilled(vectors), |Refilled(vectors)|);
  }

  lemma AllSorted(vectors: map<RecordId, Vector>)
    ensures forall id | id in PointMap(vectors) :: id in SortedIds(vectors.Keys)
  {
    SortedIdsListed(vectors.Keys);
    hide SortedIds;
    forall id | id in PointMap(vectors) ensures id in SortedIds(vectors.Keys) {
      assert id in Elements(SortedIds(vectors.Keys));
    }
  }

  lemma ReloadLists(vectors: map<RecordId, Vector>, dim: nat)
    requires forall id | id in vectors :: |vectors[id]| == dim
    ensures Lists(PointMap(vectors), LiveIds(Refilled(vectors)), LivePoints(Refilled(vectors)))
  {
    hide Refilled, Live, LivePoints, Values, LiveIds, SortedIds, Distinct, IdLess, PointMap;
    ReloadedIds(vectors);
    ReloadedPoints(vectors, dim);
    AllSorted(vectors);
  }

  /** Tables that list the same records with the same points in slot order are partitioned alike. */
  lemma SameMembership(a: seq<Entry>, b: seq<Entry>, p: Params, values: map<RecordId, Point>)
    requires VectorsFit(a, p.dimensionality) && VectorsFit(b, p.dimensionality)
    requires Permutes(p.shuffle) && Positional(p.shuffle) && LivePoints(a) == LivePoints(b)
    requires Lists(values, LiveIds(a), LivePoints(a)) && Lists(values, LiveIds(b), LivePoints(b))
    ensures FilingOf(a, p) == FilingOf(b, p)
  {
    PointsLength(a);
    PointsLength(b);
    hide Live, LivePoints, LiveIds, Lists, ListFor, IdsAt, Permutes, Positional, Seeds, Clustered;
    if Live(a) != [] {
      SameState(a, b, p);
      var s := FinalState(a, p);
      var centroids := FinalIsNearest(a, p);
      hide FinalState, Assign;
      forall c | 0 <= c < |s.centroids|
        ensures Elements(IdsAt(a, ListFor(Live(a), s.assignment, c)))
                == Elements(IdsAt(b, ListFor(Live(b), s.assignment, c)))
      {
        MembersByPoint(a, values, centroids, p.dimensionality, c);
        MembersByPoint(b, values, centroids, p.dimensionality, c);
      }
      hide Elements;
      assert FilingOf(a, p).members == FilingOf(b, p).members;
    }
  }

  /** The exact condition: for any vectors, the partition survives save and load for every requested cell count if and
      only if the vectors in slot order are the vectors in id order, under each positional shuffle by itself. */
  lemma ReloadExact(entries: seq<Entry>, ids: map<RecordId, nat>, p: Params)
    requires Named(entries, ids, p.dimensionality) && Permutes(p.shuffle) && Positional(p.shuffle)
    ensures VectorsFit(entries, p.dimensionality) && VectorsFit(Refilled(Contents(entries, ids)), p.dimensionality)
    ensures (forall nlist: nat :: PreservedAt(entries, ids, p, nlist)) <==> PointsInIdOrder(entries, ids)
  {
    StoredFits(entries, ids, p.dimensionality);
    VectorsSized(entries, ids, p.dimensionality);
    var vectors := Contents(entries, ids);
    if PointsInIdOrder(entries, ids) {
      EntriesList(entries, ids, p.dimensionality);
      ReloadLists(vectors, p.dimensionality);
      hide Refilled, Contents, LivePoints, LiveIds, FilingOf, Lists, Permutes, Positional;
      forall nlist: nat ensures PreservedAt(entries, ids, p, nlist) {
        SameMembership(entries, Refilled(vectors), p.(nlist := nlist), PointMap(vectors));
      }
    }
    if forall nlist: nat :: PreservedAt(entries, ids, p, nlist) {
      assert PreservedAt(entries, ids, p, |Live(entries)|);
      hide Refilled, Contents, Live, LivePoints, Rebuilt, Permutes, Positional;
      PreservedPoints(entries, Refilled(vectors), p.(nlist := |Live(entries)|));
    }
  }

  /** For distinct vectors that is the order of the identifiers. */
  lemma DistinctPointsInOrder(entries: seq<Entry>, ids: map<RecordId, nat>, dim: nat)
    requires Named(entries, ids, dim) && Distinct(LivePoints(entries))
    ensures PointsInIdOrder(entries, ids) <==> LiveAscending(entries)
  {
    hide Refilled, Contents, Live, SortedIds, LivePoints, LiveIds, LiveAscending, Distinct, PointMap;
    var vectors := Contents(entries, ids);
    var again := Refilled(vectors);
    ReloadRelists(entries, ids, dim);
    LiveIdsSorted(entries, ids, dim);
    RelistedPoints(PointMap(vectors), LiveIds(entries), LivePoints(entries), SortedIds(vectors.Keys),
                   LivePoints(again));
  }

  /** Distinct vectors keep their partition for every cell count if and only if the live ids ascend in slot order. */
  lemma ReloadExactDistinct(entries: seq<Entry>, ids: map<RecordId, nat>, p: Params)
    requires Named(entries, ids, p.dimensionality) && Permutes(p.shuffle) && Positional(p.shuffle)
    requires Distinct(LivePoints(entries))
    ensures VectorsFit(entries, p.dimensionality) && VectorsFit(Refilled(Contents(entries, ids)), p.dimensionality)
    ensures (forall nlist: nat :: PreservedAt(entries, ids, p, nlist)) <==> LiveAscending(entries)
  {
    hide PointsInIdOrder, LiveAscending, PreservedAt, Permutes, Positional, Distinct, LivePoints;
    ReloadExact(entries, ids, p);
    DistinctPointsInOrder(entries, ids, p.dimensionality);
  }

  // ---------------------------------------------------------------- the order inside a cell

  lemma {:induction false} AllInOne(live: seq<nat>, assignment: seq<nat>)
    requires |assignment| == |live| && Within(assignment, 1)
    ensures ListFor(live, assignment, 0) == live
    decreases |live|
  {
    var n := |live| - 1;
    if n >= 0 {
      AllInOne(live[..n], assignment[..n]);
      assert live == live[..n] + [live[n]];
    }
  }

  /** A single cell lists all live records. */
  lemma OneCell(entries: seq<Entry>, p: Params)
    requires VectorsFit(entries, p.dimensionality) && Permutes(p.shuffle) && Live(entries) != [] && p.nlist == 1
    ensures ListingOf(entries, p).lists == [LiveIds(entries)]
  {
    assert CellCount(1, |Live(entries)|) == 1;
    hide Live, FinalState, Permutes, ListFor;
    AllInOne(Live(entries), FinalState(entries, p).assignment);
  }

  /** The lists of every cell survive in order, for every requested cell count and any vectors, if and only if the live
      ids ascend; one cell is enough to tell. */
  lemma ReloadExactInOrder(entries: seq<Entry>, ids: map<RecordId, nat>, p: Params)
    requires Named(entries, ids, p.dimensionality) && Permutes(p.shuffle) && Positional(p.shuffle)
    ensures VectorsFit(entries, p.dimensionality) && VectorsFit(Refilled(Contents(entries, ids)), p.dimensionality)
    ensures (forall nlist: nat :: ListedAt(entries, ids, p, nlist)) <==> LiveAscending(entries)
    ensures ListedAt(entries, ids, p, 1) <==> LiveAscending(entries)
  {
    StoredFits(entries, ids, p.dimensionality);
    if LiveAscending(entries) {
      forall nlist: nat ensures ListedAt(entries, ids, p, nlist) {
        ReloadKeepsPartition(entries, ids, p.(nlist := nlist));
      }
    }
    if ListedAt(entries, ids, p, 1) {
      var q, again := p.(nlist := 1), Refilled(Contents(entries, ids));
      LiveIdsSorted(entries, ids, p.dimensionality);
      LiveIdsLength(entries);
      ReloadedIds(Contents(entries, ids));
      hide Refilled, Contents, Live, SortedIds, LiveIds, LiveAscending, ListingOf, Permutes, Positional;
      if Live(entries) != [] {
        OneCell(entries, q);
        OneCell(again, q);
        assert [LiveIds(entries)][0] == [LiveIds(again)][0];
      }
    }
  }

  // ---------------------------------------------------------------- the failing input

  lemma {:induction false} Pow2Positive(e: int)
    ensures Pow2(e) > 0.0
    decreases if e < 0 then -e else e
  {
    if e > 0 { Pow2Positive(e - 1); }
    if e < 0 { Pow2Positive(e + 1); }
  }

  lemma DistinctValues()
    ensures Values([0]) != Values([1])
  {
    Pow2Positive(-149);
    hide Pow2;
    assert Value(0) == 0.0 && Value(1) == Pow2(-149);
    hide Value;
    assert Values([0])[0] != Values([1])[0];
  }

  lemma SwappedOnReload(e1: Entry, e2: Entry)
    requires e1 == Entry([1], [1], false) && e2 == Entry([2], [0], false)
    ensures Named([e2, e1], map[[2] := 0, [1] := 1], 1)
    ensures Refilled(Contents([e2, e1], map[[2] := 0, [1] := 1])) == [e1, e2]
  {
    hide Refilled, Named, Contents, InOrder;
    SameContents(e1, e2);
    SwappedNames(e1, e2);
    ReloadKeepsEntries([e1, e2], map[[1] := 0, [2] := 1], 1);
  }

  lemma SwappedNames(e1: Entry, e2: Entry)
    requires e1 == Entry([1], [1], false) && e2 == Entry([2], [0], false)
    ensures Named([e2, e1], map[[2] := 0, [1] := 1], 1) && Named([e1, e2], map[[1] := 0, [2] := 1], 1)
    ensures InOrder([e1, e2])
  {
  }

  lemma SameContents(e1: Entry, e2: Entry)
    requires e1 == Entry([1], [1], false) && e2 == Entry([2], [0], false)
    ensures Contents([e2, e1], map[[2] := 0, [1] := 1]) == Contents([e1, e2], map[[1] := 0, [2] := 1])
  {
  }

  lemma BothLive(first: Entry, second: Entry)
    requires !first.deleted && !second.deleted
    ensures Live([first, second]) == [0, 1]
  {
    assert LiveSlots([first, second], 1) == [0];
  }

  lemma BothPoints(first: Entry, second: Entry)
    requires !first.deleted && !second.deleted
    ensures |Live([first, second])| == 2
    ensures LivePoints([first, second]) == [Values(first.vector), Values(second.vector)]
  {
    BothLive(first, second);
    hide Values, Live;
  }

  /** Two places can be shuffled in two ways. */
  lemma TwoPlaces(shuffle: Shuffle)
    requires Permutes(shuffle) && Positional(shuffle)
    ensures shuffle(Iota(2)) == [0, 1] || shuffle(Iota(2)) == [1, 0]
  {
    assert MovedBy(shuffle, Iota(2));
    EveryPlace(shuffle, 2, 0);
    EveryPlace(shuffle, 2, 1);
    hide Permutes, Positional, MovedBy;
  }

  lemma TwoCentroids(first: Entry, second: Entry, p: Params)
    requires !first.deleted && !second.deleted && p.nlist == 2 && Permutes(p.shuffle) && Positional(p.shuffle)
    requires |first.vector| == |second.vector| == p.dimensionality && Values(first.vector) != Values(second.vector)
    ensures VectorsFit([first, second], p.dimensionality)
    ensures var a, b := Values(first.vector), Values(second.vector);
      Rebuilt([first, second], p).centroids == if p.shuffle(Iota(2)) == [0, 1] then [a, b] else [b, a]
  {
    hide Values, Live, LivePoints, Rebuilt, Positional, Permutes, Iota;
    BothPoints(first, second);
    TwoPlaces(p.shuffle);
    OwnCells([first, second], p);
  }

  /** Out of order the partition does not survive, whichever way the generator shuffles two records: added as [2], [1]
      they come back as [1], [2], and the two cells trade places. A query that probes one of two equally near cells then
      answers differently. */
  lemma ReloadSwapsCells(metric: Metric, shuffle: Shuffle)
    requires Permutes(shuffle) && Positional(shuffle)
    ensures var p := Params(1, metric, 2, 0, shuffle);
      var entries, ids := [Entry([2], [0], false), Entry([1], [1], false)], map[[2] := 0, [1] := 1];
      && Named(entries, ids, 1) && VectorsFit(entries, 1) && VectorsFit(Refilled(Contents(entries, ids)), 1)
      && !PreservedAt(entries, ids, p, 2)
      && var c, d := Rebuilt(entries, p).centroids, Rebuilt(Refilled(Contents(entries, ids)), p).centroids;
      && |c| == |d| == 2 && c[0] == d[1] && c[1] == d[0] && c[0] != c[1]
  {
    var p := Params(1, metric, 2, 0, shuffle);
    var e2, e1 := Entry([2], [0], false), Entry([1], [1], false);
    DistinctValues();
    hide Values, Permutes, Positional;
    TwoCentroids(e2, e1, p);
    TwoCentroids(e1, e2, p);
    hide Rebuilt;
    SwappedOnReload(e1, e2);
  }

  /** The failing input without a hypothesis: the shuffle that leaves everything in place. */
  lemma ReloadLosesPartition(metric: Metric)
    ensures var p := Params(1, metric, 2, 0, s => s);
      var entries, ids := [Entry([2], [0], false), Entry([1], [1], false)], map[[2] := 0, [1] := 1];
      && Permutes(p.shuffle) && Positional(p.shuffle) && Named(entries, ids, 1) && VectorsFit(entries, 1)
      && VectorsFit(Refilled(Contents(entries, ids)), 1) && !PreservedAt(entries, ids, p, 2)
  {
    InPlaceIsPositional();
    hide Permutes, Positional, PreservedAt, Rebuilt;
    ReloadSwapsCells(metric, s => s);
  }
}
