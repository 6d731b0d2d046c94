/** The IVF partition as a function of the stored entries, and the exactness of probing it. */
module IvfModel {
  import opened Ordering
  import opened Identifiers
  import opened Vectors
  import opened Kernels
  import opened Lloyd

  datatype Entry = Entry(id: RecordId, vector: Vector, deleted: bool)

  type Shuffle = seq<nat> -> seq<nat>

  /** Construction parameters; `shuffle` is std::shuffle driven by the seeded generator. */
  datatype Params = Params(dimensionality: nat, metric: Metric, nlist: nat, seed: nat, shuffle: Shuffle)

  ghost predicate Permutes(shuffle: Shuffle) { forall s: seq<nat> :: multiset(shuffle(s)) == multiset(s) }

  // ---------------------------------------------------------------- the store

  /** The id map is a bijection between the stored ids and the slots. */
  ghost predicate Named(entries: seq<Entry>, ids: map<RecordId, nat>, dim: nat) {
    && (forall i | 0 <= i < |entries| ::
          entries[i].id != [] && |entries[i].vector| == dim && entries[i].id in ids && ids[entries[i].id] == i)
    && (forall id | id in ids :: ids[id] < |entries| && entries[ids[id]].id == id)
  }

  ghost function Contents(entries: seq<Entry>, ids: map<RecordId, nat>): map<RecordId, Vector>
    requires forall id | id in ids :: ids[id] < |entries|
  {
    map id | id in ids && !entries[ids[id]].deleted :: entries[ids[id]].vector
  }

  function LiveSet(entries: seq<Entry>): set<nat> { set i: nat | i < |entries| && !entries[i].deleted }

  /** Replacing a record revives it, under the new vector. */
  lemma ReplaceKeeps(entries: seq<Entry>, ids: map<RecordId, nat>, dim: nat, id: RecordId, vec: Vector)
    requires Named(entries, ids, dim) && id in ids && |vec| == dim
    ensures var e := entries[ids[id]]; var after := entries[ids[id] := Entry(e.id, vec, false)];
      && Named(after, ids, dim) && Contents(after, ids) == Contents(entries, ids)[id := vec]
      && |LiveSet(after)| == |LiveSet(entries)| + if e.deleted then 1 else 0
  {
    var slot := ids[id];
    var after := entries[slot := Entry(entries[slot].id, vec, false)];
    assert LiveSet(after) == LiveSet(entries) + {slot};
    if entries[slot].deleted {
      assert slot !in LiveSet(entries);
    } else {
      assert LiveSet(after) == LiveSet(entries);
    }
  }

  lemma AppendKeeps(entries: seq<Entry>, ids: map<RecordId, nat>, dim: nat, id: RecordId, vec: Vector)
    requires Named(entries, ids, dim) && id !in ids && |vec| == dim && id != []
    ensures var after, named := entries + [Entry(id, vec, false)], ids[id := |entries|];
      && Named(after, named, dim) && Contents(after, named) == Contents(entries, ids)[id := vec]
      && |LiveSet(after)| == |LiveSet(entries)| + 1
  {
    AppendedLive(entries, id, vec);
    hide LiveSet;
  }

  lemma AppendedLive(entries: seq<Entry>, id: RecordId, vec: Vector)
    ensures |LiveSet(entries + [Entry(id, vec, false)])| == |LiveSet(entries)| + 1
  {
    assert LiveSet(entries + [Entry(id, vec, false)]) == LiveSet(entries) + {|entries|};
    assert |entries| !in LiveSet(entries);
  }

  lemma RemoveKeeps(entries: seq<Entry>, ids: map<RecordId, nat>, dim: nat, id: RecordId)
    requires Named(entries, ids, dim) && id in ids && !entries[ids[id]].deleted
    ensures var after := entries[ids[id] := entries[ids[id]].(deleted := true)];
      && Named(after, ids, dim) && Contents(after, ids) == Contents(entries, ids) - {id}
      && |LiveSet(after)| == |LiveSet(entries)| - 1 && |LiveSet(entries)| > 0
  {
    var slot := ids[id];
    var after := entries[slot := entries[slot].(deleted := true)];
    assert slot in LiveSet(entries);
    assert LiveSet(after) == LiveSet(entries) - {slot};
  }

  /** The live slots among the first `n`, ascending. */
  function LiveSlots(entries: seq<Entry>, n: nat): (r: seq<nat>)
    requires n <= |entries|
    ensures forall x: nat :: x in r <==> x < n && !entries[x].deleted
    ensures Ascending<nat>(r, NatLess)
  {
    if n == 0 then []
    else
      var before := LiveSlots(entries, n - 1);
      assert forall i | 0 <= i < |before| :: before[i] in before;
      if entries[n - 1].deleted then before else before + [n - 1]
  }

  function Live(entries: seq<Entry>): seq<nat> { LiveSlots(entries, |entries|) }

  // ---------------------------------------------------------------- the partition

  /** The integer part of the square root. */
  function Root(n: nat): (r: nat)
    ensures r * r <= n < (r + 1) * (r + 1)
  {
    if n == 0 then 0
    else
      var r := Root(n - 1);
      if (r + 1) * (r + 1) <= n then r + 1 else r
  }

  /** The effective number of cells. */
  function CellCount(nlist: nat, live: nat): (k: nat)
    requires live > 0
    ensures 1 <= k <= live && (1 <= nlist <= live ==> k == nlist) && (nlist > live ==> k == live)
  {
    var k := if nlist == 0 then (if Root(live) < 1 then 1 else Root(live)) else nlist;
    if k > live then live else k
  }

  /** The default is the integer square root of the live count. */
  lemma DefaultCount(live: nat)
    requires live > 0
    ensures var k := CellCount(0, live); k * k <= live < (k + 1) * (k + 1)
  {
    var r := Root(live);
    assert r == 0 ==> live < 1 * 1;
    SquareGrows(r);
  }

  lemma SquareGrows(r: nat)
    ensures r <= r * r
  {
  }

  function PointsAt(entries: seq<Entry>, slots: seq<nat>): seq<Point>
    requires forall x: nat | x in slots :: x < |entries|
  {
    seq(|slots|, i requires 0 <= i < |slots| => (assert slots[i] in slots; Values(entries[slots[i]].vector)))
  }

  ghost predicate VectorsFit(entries: seq<Entry>, dim: nat) {
    forall i | 0 <= i < |entries| :: |entries[i].vector| == dim
  }

  lemma PointsShaped(entries: seq<Entry>, slots: seq<nat>, dim: nat)
    requires VectorsFit(entries, dim) && forall x: nat | x in slots :: x < |entries|
    ensures Shaped(PointsAt(entries, slots), dim)
  {
    forall i | 0 <= i < |slots| ensures slots[i] < |entries| { assert slots[i] in slots; }
  }

  lemma ShuffledFacts(shuffle: Shuffle, live: seq<nat>)
    requires Permutes(shuffle)
    ensures |shuffle(live)| == |live| && forall x | x in shuffle(live) :: x in live
  {
    var s := shuffle(live);
    assert multiset(s) == multiset(live);
    assert |multiset(s)| == |s| && |multiset(live)| == |live|;
    forall x | x in s ensures x in live { assert x in multiset(s); }
  }

  lemma PrefixMembers(s: seq<nat>, k: nat)
    requires k <= |s|
    ensures forall x | x in s[..k] :: x in s
  {
  }

  /** The first k shuffled live vectors. */
  ghost function Seeds(entries: seq<Entry>, p: Params): (r: seq<Point>)
    requires VectorsFit(entries, p.dimensionality) && Permutes(p.shuffle) && Live(entries) != []
    ensures |r| == CellCount(p.nlist, |Live(entries)|) && Shaped(r, p.dimensionality)
  {
    var live := Live(entries);
    ShuffledFacts(p.shuffle, live);
    var first := p.shuffle(live)[..CellCount(p.nlist, |live|)];
    PrefixMembers(p.shuffle(live), |first|);
    PointsShaped(entries, first, p.dimensionality);
    PointsAt(entries, first)
  }

  /** The slots assigned to cell `c`, in slot order. */
  function ListFor(live: seq<nat>, assignment: seq<nat>, c: nat): seq<nat>
    requires |assignment| == |live|
  {
    var n := |live| - 1;
    if n < 0 then [] else ListFor(live[..n], assignment[..n], c) + if assignment[n] == c then [live[n]] else []
  }

  lemma {:induction false} ListMembers(live: seq<nat>, assignment: seq<nat>, c: nat, x: nat)
    requires |assignment| == |live|
    ensures x in ListFor(live, assignment, c) <==> exists i | 0 <= i < |live| :: live[i] == x && assignment[i] == c
    decreases |live|
  {
    var n := |live| - 1;
    if n >= 0 {
      ListMembers(live[..n], assignment[..n], c, x);
      if x in ListFor(live[..n], assignment[..n], c) {
        var i :| 0 <= i < n && live[..n][i] == x && assignment[..n][i] == c;
        assert live[i] == x && assignment[i] == c;
      }
      if i :| 0 <= i < |live| && live[i] == x && assignment[i] == c {
        assert i < n ==> live[..n][i] == x && assignment[..n][i] == c;
      }
    }
  }

  function ListsOf(live: seq<nat>, assignment: seq<nat>, k: nat): seq<seq<nat>>
    requires |assignment| == |live|
  {
    seq(k, c requires 0 <= c < k => ListFor(live, assignment, c))
  }

  /** The centroids and the inverted list of each cell. */
  datatype Partition = Partition(centroids: seq<Point>, lists: seq<seq<nat>>)

  ghost function FinalState(entries: seq<Entry>, p: Params): (s: State)
    requires VectorsFit(entries, p.dimensionality) && Permutes(p.shuffle) && Live(entries) != []
    ensures |s.centroids| == CellCount(p.nlist, |Live(entries)|) && Shaped(s.centroids, p.dimensionality)
    ensures |s.assignment| == |Live(entries)| && Within(s.assignment, |s.centroids|)
  {
    PointsShaped(entries, Live(entries), p.dimensionality);
    Clustered(PointsAt(entries, Live(entries)), Seeds(entries, p), p.dimensionality)
  }

  /** The clustering of a rebuild never ends dearer than it was after any earlier iteration, and when the assignments
      were stable at the end it is a fixed point of Lloyd's iteration. */
  lemma FinalStateFacts(entries: seq<Entry>, p: Params, n: nat)
    requires VectorsFit(entries, p.dimensionality) && Permutes(p.shuffle) && Live(entries) != []
    ensures Shaped(PointsAt(entries, Live(entries)), p.dimensionality)
    ensures var points, seeds, dim := PointsAt(entries, Live(entries)), Seeds(entries, p), p.dimensionality;
      var rounds := Rounds(points, seeds, dim, 1);
      && (n <= rounds ==>
            StateCost(points, FinalState(entries, p), dim) <= StateCost(points, Run(points, seeds, dim, n), dim))
      && (rounds < MAX_ITERATIONS || Converged(points, seeds, dim, rounds) ==>
            FixedPoint(points, FinalState(entries, p), dim))
  {
    hide PointsAt, Seeds, Run, Converged, StateCost, FixedPoint;
    PointsShaped(entries, Live(entries), p.dimensionality);
    var points, seeds, dim := PointsAt(entries, Live(entries)), Seeds(entries, p), p.dimensionality;
    var rounds := Rounds(points, seeds, dim, 1);
    if n <= rounds { CostDescends(points, seeds, dim, n, rounds); }
    if Converged(points, seeds, dim, rounds) { ConvergedIsFixedPoint(points, seeds, dim, rounds); }
  }

  /** What a rebuild produces: a function of the entries and the parameters alone. */
  ghost function Rebuilt(entries: seq<Entry>, p: Params): (r: Partition)
    requires VectorsFit(entries, p.dimensionality) && Permutes(p.shuffle)
    ensures |r.lists| == |r.centroids| && Shaped(r.centroids, p.dimensionality)
  {
    var live := Live(entries);
    if live == [] then Partition([], [])
    else
      var s := FinalState(entries, p);
      Partition(s.centroids, ListsOf(live, s.assignment, |s.centroids|))
  }

  /** The vectors of the slots, in order. */
  ghost predicate VectorsAt(entries: seq<Entry>, slots: seq<nat>, points: seq<Point>) {
    |points| <= |slots| && forall i | 0 <= i < |points| ::
      slots[i] < |entries| && points[i] == Values(entries[slots[i]].vector)
  }

  /** A list holds exactly the live slots assigned to its cell, in slot order. */
  ghost predicate ListsCell(live: seq<nat>, assignment: seq<nat>, c: nat, list: seq<nat>) {
    && |assignment| == |live| && Ascending<nat>(list, NatLess)
    && forall x: nat :: x in list <==> exists i :: 0 <= i < |live| && live[i] == x && assignment[i] == c
  }

  /** What a rebuild does: k-means over the live vectors in slot order, started from the vectors of the first shuffled
      live slots, as many as cells; twelve rounds, or as many as change anything; each live slot is filed under the cell
      it was assigned to. */
  lemma RebuiltFrom(entries: seq<Entry>, p: Params)
      returns (points: seq<Point>, seeds: seq<Point>, assignment: seq<nat>)
    requires VectorsFit(entries, p.dimensionality) && Permutes(p.shuffle) && Live(entries) != []
    ensures var live, r := Live(entries), Rebuilt(entries, p);
      && |points| == |live| && VectorsAt(entries, live, points) && VectorsAt(entries, p.shuffle(live), seeds)
      && |seeds| == |r.centroids| == |r.lists| == CellCount(p.nlist, |live|)
      && Shaped(points, p.dimensionality) && Shaped(seeds, p.dimensionality)
      && State(r.centroids, assignment) == Run(points, seeds, p.dimensionality, 12)
      && |assignment| == |live| && forall c | 0 <= c < |r.lists| :: ListsCell(live, assignment, c, r.lists[c])
  {
    hide Run, Rounds, Values;
    var live := Live(entries);
    PointsShaped(entries, live, p.dimensionality);
    points, seeds := PointsAt(entries, live), Seeds(entries, p);
    TwelveRounds(points, seeds, p.dimensionality);
    var s := FinalState(entries, p);
    assignment := s.assignment;
    LiveVectors(entries);
    SeedVectors(entries, p);
    forall c | 0 <= c < |s.centroids|
      ensures ListsCell(live, assignment, c, ListsOf(live, assignment, |s.centroids|)[c])
    {
      CellListed(live, assignment, c);
    }
  }

  lemma LiveVectors(entries: seq<Entry>)
    ensures VectorsAt(entries, Live(entries), PointsAt(entries, Live(entries)))
  {
    hide LiveSlots, Values;
    var live := Live(entries);
    forall i | 0 <= i < |live| ensures live[i] < |entries| { assert live[i] in live; }
  }

  lemma SeedVectors(entries: seq<Entry>, p: Params)
    requires VectorsFit(entries, p.dimensionality) && Permutes(p.shuffle) && Live(entries) != []
    ensures VectorsAt(entries, p.shuffle(Live(entries)), Seeds(entries, p))
  {
    hide LiveSlots, Values;
    var live := Live(entries);
    ShuffledFacts(p.shuffle, live);
    var s := p.shuffle(live);
    forall i | 0 <= i < |s| ensures s[i] < |entries| { assert s[i] in s; }
  }

  lemma CellListed(live: seq<nat>, assignment: seq<nat>, c: nat)
    requires |assignment| == |live| && Ascending<nat>(live, NatLess)
    ensures ListsCell(live, assignment, c, ListFor(live, assignment, c))
  {
    var list := ListFor(live, assignment, c);
    ListAscends(live, assignment, c);
    hide ListFor;
    forall x: nat ensures x in list <==> exists i :: 0 <= i < |live| && live[i] == x && assignment[i] == c {
      ListMembers(live, assignment, c, x);
    }
  }

  lemma {:induction false} ListAscends(live: seq<nat>, assignment: seq<nat>, c: nat)
    requires |assignment| == |live| && Ascending<nat>(live, NatLess)
    ensures Ascending<nat>(ListFor(live, assignment, c), NatLess)
    decreases |live|
  {
    var n := |live| - 1;
    if n >= 0 {
      ListAscends(live[..n], assignment[..n], c);
      var before := ListFor(live[..n], assignment[..n], c);
      forall i | 0 <= i < |before| ensures before[i] < live[n] {
        ListMembers(live[..n], assignment[..n], c, before[i]);
        assert before[i] in before;
        var j :| 0 <= j < n && live[..n][j] == before[i] && assignment[..n][j] == c;
        assert NatLess(live[j], live[n]);
      }
    }
  }

  /** Every live slot is in exactly one list, once, and nothing else is. */
  ghost predicate Partitions(lists: seq<seq<nat>>, entries: seq<Entry>) {
    && (forall c, x: nat | 0 <= c < |lists| && x in lists[c] :: x < |entries| && !entries[x].deleted)
    && (forall x: nat | x < |entries| && !entries[x].deleted :: exists c :: 0 <= c < |lists| && x in lists[c])
    && (forall c, d, x: nat | 0 <= c < |lists| && 0 <= d < |lists| && x in lists[c] && x in lists[d] :: c == d)
    && (forall c | 0 <= c < |lists| :: Distinct(lists[c]))
  }

  lemma {:induction false} ListDistinct(live: seq<nat>, assignment: seq<nat>, c: nat)
    requires |assignment| == |live| && Distinct(live)
    ensures Distinct(ListFor(live, assignment, c))
    decreases |live|
  {
    var n := |live| - 1;
    if n >= 0 {
      ListDistinct(live[..n], assignment[..n], c);
      var r := ListFor(live[..n], assignment[..n], c);
      ListMembers(live[..n], assignment[..n], c, live[n]);
      assert live[n] !in r;
      assert r + [] == r;
    }
  }

  lemma ListsPartition(live: seq<nat>, assignment: seq<nat>, k: nat, entries: seq<Entry>)
    requires |assignment| == |live| && Within(assignment, k) && live == Live(entries)
    ensures Partitions(ListsOf(live, assignment, k), entries)
  {
    var lists := ListsOf(live, assignment, k);
    NatOrder();
    AscendingDistinct<nat>(live, NatLess);
    forall c | 0 <= c < k ensures Distinct(lists[c]) { ListDistinct(live, assignment, c); }
    hide ListFor, LiveSlots;
    forall c, x: nat | 0 <= c < k
      ensures x in lists[c] <==> exists i | 0 <= i < |live| :: live[i] == x && assignment[i] == c
    {
      ListMembers(live, assignment, c, x);
    }
    forall x: nat | x < |entries| && !entries[x].deleted ensures exists c :: 0 <= c < k && x in lists[c] {
      assert x in live;
      var i :| 0 <= i < |live| && live[i] == x;
      assert x in lists[assignment[i]];
    }
    forall c, d, x: nat | 0 <= c < k && 0 <= d < k && x in lists[c] && x in lists[d] ensures c == d {
      var i :| 0 <= i < |live| && live[i] == x && assignment[i] == c;
      var j :| 0 <= j < |live| && live[j] == x && assignment[j] == d;
    }
  }

  /** The inverted lists of every rebuild partition the live slots. */
  lemma RebuiltPartitions(entries: seq<Entry>, p: Params)
    requires VectorsFit(entries, p.dimensionality) && Permutes(p.shuffle)
    ensures Partitions(Rebuilt(entries, p).lists, entries)
  {
    hide ListsOf, Clustered, Seeds, CellCount;
    var live := Live(entries);
    if live == [] {
      forall x: nat | x < |entries| ensures entries[x].deleted { assert x !in live; }
    } else {
      var s := FinalState(entries, p);
      ListsPartition(live, s.assignment, |s.centroids|, entries);
    }
  }

  // ---------------------------------------------------------------- probing

  datatype CellDist = CellDist(distance: real, cell: nat)

  /** std::pair's order: by distance, then by cell index. */
  predicate CellLess(a: CellDist, b: CellDist) {
    if a.distance != b.distance then a.distance < b.distance else a.cell < b.cell
  }

  lemma CellOrder()
    ensures StrictTotal(CellLess)
  {
  }

  function CellDists(q: Point, centroids: seq<Point>): (r: seq<CellDist>)
    requires Shaped(centroids, |q|)
    ensures |r| == |centroids|
  {
    seq(|centroids|, c requires 0 <= c < |centroids| => CellDist(SquaredL2(q, centroids[c]), c))
  }

  /** nprobe clamped to [1, cells]. */
  function Probes(nprobe: nat, cells: nat): (n: nat)
    ensures 1 <= nprobe <= cells ==> n == nprobe
    ensures nprobe == 0 && cells > 0 ==> n == 1
    ensures nprobe >= cells ==> n == cells
  {
    var n := if nprobe < 1 then 1 else nprobe;
    if n > cells then cells else n
  }

  function CellsOf(s: seq<CellDist>): seq<nat> { seq<nat>(|s|, i requires 0 <= i < |s| => s[i].cell) }

  /** The cells a query scans, nearest first. */
  ghost function Probed(q: Point, centroids: seq<Point>, nprobe: nat): seq<nat>
    requires Shaped(centroids, |q|)
  {
    CellOrder();
    CellsOf(Sort(CellDists(q, centroids), CellLess)[..Probes(nprobe, |centroids|)])
  }

  /** The centroid of cell `c` is nearer to `q` than that of cell `d`, or as near under a lower index. */
  ghost predicate Nearer(q: Point, centroids: seq<Point>, c: nat, d: nat)
    requires Shaped(centroids, |q|) && c < |centroids| && d < |centroids|
  {
    SquaredL2(q, centroids[c]) < SquaredL2(q, centroids[d])
    || (SquaredL2(q, centroids[c]) == SquaredL2(q, centroids[d]) && c < d)
  }

  /** The cells are the nearest ones, as many as asked for, at least one and at most all. */
  ghost predicate NearestCells(q: Point, centroids: seq<Point>, nprobe: nat, cells: seq<nat>)
    requires Shaped(centroids, |q|)
  {
    && Distinct(cells) && Within(cells, |centroids|)
    && (1 <= nprobe <= |centroids| ==> |cells| == nprobe)
    && (nprobe == 0 && |centroids| > 0 ==> |cells| == 1)
    && (nprobe > |centroids| ==> |cells| == |centroids|)
    && forall c, d: nat | c in cells && d < |centroids| && d !in cells :: Nearer(q, centroids, c, d)
  }

  lemma NearerIsLess(q: Point, centroids: seq<Point>, c: nat, d: nat)
    requires Shaped(centroids, |q|) && c < |centroids| && d < |centroids|
    ensures Nearer(q, centroids, c, d)
      <==> CellLess(CellDist(SquaredL2(q, centroids[c]), c), CellDist(SquaredL2(q, centroids[d]), d))
  {
  }

  lemma SortedCells(q: Point, centroids: seq<Point>)
    requires Shaped(centroids, |q|)
    ensures StrictTotal(CellLess)
    ensures var s := Sort(CellDists(q, centroids), CellLess);
      && |s| == |centroids| && Ascending(s, CellLess)
      && (forall i | 0 <= i < |s| :: s[i].cell < |centroids| && s[i] == CellDists(q, centroids)[s[i].cell])
      && (forall c | 0 <= c < |centroids| :: CellDists(q, centroids)[c] in s)
  {
    CellOrder();
    hide SquaredL2, CellLess;
    var ds := CellDists(q, centroids);
    assert forall c | 0 <= c < |ds| :: ds[c].cell == c;
    SortDistinct(ds, CellLess);
    SortMembers(ds, CellLess);
    var s := Sort(ds, CellLess);
    forall i | 0 <= i < |s| ensures s[i].cell < |centroids| && s[i] == ds[s[i].cell] {
      assert s[i] in ds;
    }
  }

  /** A prefix of the sorted cells is distinct and nearer than the rest. */
  lemma NearestPrefix(ds: seq<CellDist>, s: seq<CellDist>, n: nat)
    requires |s| == |ds| && n <= |s| && Ascending(s, CellLess) && StrictTotal(CellLess)
    requires forall c | 0 <= c < |ds| :: ds[c].cell == c && ds[c] in s
    requires forall i | 0 <= i < |s| :: s[i].cell < |ds| && s[i] == ds[s[i].cell]
    ensures var cells := CellsOf(s[..n]);
      && |cells| == n && Distinct(cells) && Within(cells, |ds|)
      && (forall c, d: nat | c in cells && d < |ds| && d !in cells :: CellLess(ds[c], ds[d]))
      && (n == |s| ==> forall d: nat | d < |ds| :: d in cells)
  {
    hide CellLess;
    var cells := CellsOf(s[..n]);
    forall i, j | 0 <= i < j < n ensures cells[i] != cells[j] {
      assert CellLess(s[i], s[j]);
    }
    forall d: nat | d < |ds| ensures exists j :: 0 <= j < |s| && s[j] == ds[d] && (j < n ==> d in cells) {
      var j :| 0 <= j < |s| && s[j] == ds[d];
      assert j < n ==> cells[j] == d;
    }
    forall c, d: nat | c in cells && d < |ds| && d !in cells ensures CellLess(ds[c], ds[d]) {
      var i :| 0 <= i < n && cells[i] == c;
      var j :| 0 <= j < |s| && s[j] == ds[d] && (j < n ==> d in cells);
      assert CellLess(s[i], s[j]);
    }
  }

  lemma DistsAt(q: Point, centroids: seq<Point>)
    requires Shaped(centroids, |q|)
    ensures forall c | 0 <= c < |centroids| :: CellDists(q, centroids)[c] == CellDist(SquaredL2(q, centroids[c]), c)
  {
  }

  /** The probed cells are distinct, as many as asked for, and nearer than every other cell. */
  lemma ProbedAreNearest(q: Point, centroids: seq<Point>, nprobe: nat)
    requires Shaped(centroids, |q|)
    ensures var cells := Probed(q, centroids, nprobe);
      && NearestCells(q, centroids, nprobe, cells) && Distinct(cells) && Within(cells, |centroids|)
      && (nprobe >= |centroids| ==> forall d: nat | d < |centroids| :: d in cells)
  {
    hide SquaredL2, CellLess, Sort, CellDists, CellsOf, Nearer;
    SortedCells(q, centroids);
    DistsAt(q, centroids);
    NearestPrefix(CellDists(q, centroids), Sort(CellDists(q, centroids), CellLess), Probes(nprobe, |centroids|));
    var cells := Probed(q, centroids, nprobe);
    forall c, d: nat | c in cells && d < |centroids| && d !in cells ensures Nearer(q, centroids, c, d) {
      NearerIsLess(q, centroids, c, d);
    }
  }

  /** The live records filed under the given cells. */
  ghost function Filed(entries: seq<Entry>, ids: map<RecordId, nat>, lists: seq<seq<nat>>,
                       cells: seq<nat>): map<RecordId, Vector>
    requires forall id | id in ids :: ids[id] < |entries|
  {
    map id | id in Contents(entries, ids) && exists c :: c in cells && c < |lists| && ids[id] in lists[c] ::
      Contents(entries, ids)[id]
  }

  /** A probe of every cell covers every live record. */
  lemma FullProbeCovers(entries: seq<Entry>, ids: map<RecordId, nat>, p: Params, q: Point, nprobe: nat)
    requires Named(entries, ids, p.dimensionality) && VectorsFit(entries, p.dimensionality) && Permutes(p.shuffle)
    requires |q| == p.dimensionality && nprobe >= |Rebuilt(entries, p).centroids|
    ensures var r := Rebuilt(entries, p);
      Filed(entries, ids, r.lists, Probed(q, r.centroids, nprobe)) == Contents(entries, ids)
  {
    hide Rebuilt, Probed, Distinct, Nearer, Permutes;
    RebuiltPartitions(entries, p);
    var r := Rebuilt(entries, p);
    ProbedAreNearest(q, r.centroids, nprobe);
    forall id | id in Contents(entries, ids)
      ensures exists c :: c in Probed(q, r.centroids, nprobe) && c < |r.lists| && ids[id] in r.lists[c]
    {
      var c :| 0 <= c < |r.lists| && ids[id] in r.lists[c];
      assert c in Probed(q, r.centroids, nprobe);
    }
  }

  // ---------------------------------------------------------------- scanning the probed cells

  /** The slots of the given cells, list after list. */
  function Gather(lists: seq<seq<nat>>, cells: seq<nat>): seq<nat>
    requires Within(cells, |lists|)
  {
    var n := |cells| - 1;
    if n < 0 then [] else Gather(lists, cells[..n]) + lists[cells[n]]
  }

  lemma {:induction false} GatherFacts(lists: seq<seq<nat>>, cells: seq<nat>, entries: seq<Entry>)
    requires Partitions(lists, entries) && Distinct(cells) && Within(cells, |lists|)
    ensures Distinct(Gather(lists, cells))
    ensures forall x: nat :: x in Gather(lists, cells) <==> exists i :: 0 <= i < |cells| && x in lists[cells[i]]
    decreases |cells|
  {
    var n := |cells| - 1;
    if n >= 0 {
      GatherFacts(lists, cells[..n], entries);
      var before, last := Gather(lists, cells[..n]), lists[cells[n]];
      hide Partitions, Gather;
      forall x: nat ensures x in before + last <==> exists i :: 0 <= i < |cells| && x in lists[cells[i]] {
        GatheredIn(lists, cells, x);
      }
      forall x: nat | x in before ensures x !in last {
        var i :| 0 <= i < n && x in lists[cells[..n][i]];
        FiledOnce(lists, entries, cells[i], cells[n], x);
      }
      LastDistinct(lists, entries, cells[n]);
      DistinctConcat(before, last);
      GatherLast(lists, cells);
    }
  }

  lemma GatherLast(lists: seq<seq<nat>>, cells: seq<nat>)
    requires cells != [] && Within(cells, |lists|)
    ensures Gather(lists, cells) == Gather(lists, cells[..|cells| - 1]) + lists[cells[|cells| - 1]]
  {
  }

  lemma GatheredIn(lists: seq<seq<nat>>, cells: seq<nat>, x: nat)
    requires cells != [] && Within(cells, |lists|)
    ensures var n := |cells| - 1;
      (exists i :: 0 <= i < |cells| && x in lists[cells[i]])
      <==> x in lists[cells[n]] || exists i :: 0 <= i < n && x in lists[cells[..n][i]]
  {
    var n := |cells| - 1;
    if i :| 0 <= i < n && x in lists[cells[..n][i]] { assert x in lists[cells[i]]; }
    if i :| 0 <= i < |cells| && x in lists[cells[i]] {
      if i < n { assert x in lists[cells[..n][i]]; }
    }
  }

  lemma FiledOnce(lists: seq<seq<nat>>, entries: seq<Entry>, a: nat, b: nat, x: nat)
    requires Partitions(lists, entries) && a < |lists| && b < |lists| && a != b && x in lists[a]
    ensures x !in lists[b]
  {
  }

  lemma LastDistinct(lists: seq<seq<nat>>, entries: seq<Entry>, c: nat)
    requires Partitions(lists, entries) && c < |lists|
    ensures Distinct(lists[c])
  {
  }

  lemma DistinctConcat<T>(a: seq<T>, b: seq<T>)
    requires Distinct(a) && Distinct(b) && forall x | x in a :: x !in b
    ensures Distinct(a + b)
  {
    forall i, j | 0 <= i < j < |a + b| ensures (a + b)[i] != (a + b)[j] {
      if i < |a| <= j { assert a[i] in a && b[j - |a|] in b; }
    }
  }

  function CandidatesAt(entries: seq<Entry>, metric: Metric, q: Vector, slots: seq<nat>): seq<Candidate>
    requires forall x: nat | x in slots :: x < |entries|
  {
    seq(|slots|, i requires 0 <= i < |slots| =>
      (assert slots[i] in slots; Candidate(entries[slots[i]].id, Score(metric, q, entries[slots[i]].vector))))
  }

  lemma FiledIsLive(lists: seq<seq<nat>>, entries: seq<Entry>, c: nat, x: nat)
    requires Partitions(lists, entries) && c < |lists| && x in lists[c]
    ensures x < |entries| && !entries[x].deleted
  {
  }

  lemma GatherLive(lists: seq<seq<nat>>, cells: seq<nat>, entries: seq<Entry>)
    requires Partitions(lists, entries) && Distinct(cells) && Within(cells, |lists|)
    ensures forall x: nat | x in Gather(lists, cells) :: x < |entries| && !entries[x].deleted
  {
    GatherFacts(lists, cells, entries);
    hide Gather, Partitions;
    forall x: nat | x in Gather(lists, cells) ensures x < |entries| && !entries[x].deleted {
      var i :| 0 <= i < |cells| && x in lists[cells[i]];
      FiledIsLive(lists, entries, cells[i], x);
    }
  }

  /** A record is filed under the cells exactly when they hold its slot. */
  lemma FiledSlots(entries: seq<Entry>, ids: map<RecordId, nat>, dim: nat, lists: seq<seq<nat>>, cells: seq<nat>,
                   id: RecordId)
    requires Named(entries, ids, dim) && Partitions(lists, entries) && Distinct(cells) && Within(cells, |lists|)
    ensures id in Filed(entries, ids, lists, cells) <==> id in ids && ids[id] in Gather(lists, cells)
  {
    GatherFacts(lists, cells, entries);
    GatherLive(lists, cells, entries);
    hide Gather, Partitions;
    if id in Filed(entries, ids, lists, cells) {
      var c :| c in cells && c < |lists| && ids[id] in lists[c];
      var i :| 0 <= i < |cells| && cells[i] == c;
      assert ids[id] in lists[cells[i]];
    }
    if id in ids && ids[id] in Gather(lists, cells) {
      var i :| 0 <= i < |cells| && ids[id] in lists[cells[i]];
      assert cells[i] in cells;
    }
  }

  /** Distinct live slots score to distinct ids, namely those of the records in the slots. */
  lemma ScoredSlots(entries: seq<Entry>, ids: map<RecordId, nat>, dim: nat, metric: Metric, q: Vector,
                    slots: seq<nat>, filed: map<RecordId, Vector>)
    requires Named(entries, ids, dim) && Distinct(slots) && forall x: nat | x in slots :: x < |entries|
    requires forall id :: id in filed <==> id in ids && ids[id] in slots
    requires forall id | id in filed :: filed[id] == entries[ids[id]].vector
    ensures var list := CandidatesAt(entries, metric, q, slots);
      && (forall i, j | 0 <= i < j < |list| :: list[i].id != list[j].id)
      && (forall c :: c in list <==> c in AllScored(filed, metric, q))
  {
    hide Score;
    var list := CandidatesAt(entries, metric, q, slots);
    forall c ensures c in list <==> c in AllScored(filed, metric, q) {
      if c in list {
        var i :| 0 <= i < |slots| && list[i] == c;
        assert slots[i] in slots;
        assert ids[c.id] == slots[i] && c.id in filed;
      }
      if c in AllScored(filed, metric, q) {
        var i :| 0 <= i < |slots| && slots[i] == ids[c.id];
        assert list[i] == c;
      }
    }
    forall i, j | 0 <= i < j < |list| ensures list[i].id != list[j].id {
      assert slots[i] in slots && slots[j] in slots;
    }
  }

  /** The scored slots of the probed cells are exactly the scored records filed there. */
  lemma ScoredIsFiled(entries: seq<Entry>, ids: map<RecordId, nat>, dim: nat, metric: Metric, q: Vector,
                      lists: seq<seq<nat>>, cells: seq<nat>)
    requires Named(entries, ids, dim) && Partitions(lists, entries) && Distinct(cells) && Within(cells, |lists|)
    ensures forall x: nat | x in Gather(lists, cells) :: x < |entries| && !entries[x].deleted
    ensures var list := CandidatesAt(entries, metric, q, Gather(lists, cells));
      && (forall i, j | 0 <= i < j < |list| :: list[i].id != list[j].id)
      && (forall c :: c in list <==> c in AllScored(Filed(entries, ids, lists, cells), metric, q))
  {
    GatherFacts(lists, cells, entries);
    GatherLive(lists, cells, entries);
    var filed := Filed(entries, ids, lists, cells);
    assert forall id | id in filed :: filed[id] == entries[ids[id]].vector;
    hide Gather, Partitions, Named, Filed, AllScored, CandidatesAt;
    forall id ensures id in filed <==> id in ids && ids[id] in Gather(lists, cells) {
      FiledSlots(entries, ids, dim, lists, cells, id);
    }
    ScoredSlots(entries, ids, dim, metric, q, Gather(lists, cells), filed);
  }
}
