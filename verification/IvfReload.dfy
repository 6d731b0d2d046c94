/** What reloading does to an inverted file: entries come back in id order, and when that matters. */
module IvfReload {
  import opened Ordering
  import opened Identifiers
  import opened Vectors
  import opened Kernels
  import opened Lloyd
  import opened IvfModel

  function EntriesOf(ids: seq<RecordId>, vectors: map<RecordId, Vector>): seq<Entry>
    requires forall i | 0 <= i < |ids| :: ids[i] in vectors
  {
    seq(|ids|, i requires 0 <= i < |ids| => Entry(ids[i], vectors[ids[i]], false))
  }

  /** The entries a load creates: every record once, in id order, none tombstoned. */
  function Refilled(vectors: map<RecordId, Vector>): seq<Entry> {
    SortedIdsListed(vectors.Keys);
    EntriesOf(SortedIds(vectors.Keys), vectors)
  }

  /** Live throughout, and in id order. */
  ghost predicate InOrder(entries: seq<Entry>) {
    && (forall i | 0 <= i < |entries| :: !entries[i].deleted)
    && forall i, j | 0 <= i < j < |entries| :: IdLess(entries[i].id, entries[j].id)
  }

  function EntryIds(entries: seq<Entry>): seq<RecordId> {
    seq(|entries|, i requires 0 <= i < |entries| => entries[i].id)
  }

  lemma RefilledInOrder(vectors: map<RecordId, Vector>)
    ensures InOrder(Refilled(vectors))
  {
    hide IdLess;
    var ids := SortedIds(vectors.Keys);
    assert Ascending(ids, IdLess);
  }

  lemma ListedMembers(entries: seq<Entry>, ids: map<RecordId, nat>, dim: nat, id: RecordId)
    requires Named(entries, ids, dim) && InOrder(entries)
    ensures id in EntryIds(entries) <==> id in Contents(entries, ids)
  {
    hide IdLess;
    var listed := EntryIds(entries);
    if id in listed {
      var i :| 0 <= i < |listed| && listed[i] == id;
      assert ids[entries[i].id] == i;
    }
    if id in Contents(entries, ids) { assert listed[ids[id]] == id; }
  }

  lemma ListedIds(entries: seq<Entry>, ids: map<RecordId, nat>, dim: nat)
    requires Named(entries, ids, dim) && InOrder(entries)
    ensures EntryIds(entries) == SortedIds(Contents(entries, ids).Keys)
  {
    IdOrder();
    var listed, sorted := EntryIds(entries), SortedIds(Contents(entries, ids).Keys);
    assert Ascending(listed, IdLess) && Ascending(sorted, IdLess);
    hide IdLess, SortedIds, Ascending, InOrder, EntryIds, Contents, Named;
    forall id ensures id in listed <==> id in sorted {
      ListedMembers(entries, ids, dim, id);
    }
    EnumerationUnique(listed, sorted, IdLess);
  }

  /** Saving and loading gives back the same entry table exactly when it was live throughout and in id order. */
  lemma ReloadKeepsEntries(entries: seq<Entry>, ids: map<RecordId, nat>, dim: nat)
    requires Named(entries, ids, dim)
    ensures Refilled(Contents(entries, ids)) == entries <==> InOrder(entries)
  {
    RefilledInOrder(Contents(entries, ids));
    if InOrder(entries) {
      ListedIds(entries, ids, dim);
      hide IdLess, SortedIds;
      var vectors := Contents(entries, ids);
      SortedIdsListed(vectors.Keys);
      forall i | 0 <= i < |entries| ensures EntriesOf(SortedIds(vectors.Keys), vectors)[i] == entries[i] {
        assert EntryIds(entries)[i] == entries[i].id && ids[entries[i].id] == i;
      }
    }
  }

  // ---------------------------------------------------------------- the partition in terms of records

  /** 0, 1, ..., n - 1. */
  function Iota(n: nat): (r: seq<nat>)
    ensures |r| == n && forall i | 0 <= i < n :: r[i] == i
  {
    seq(n, i => i)
  }

  /** The shuffle moves places, whatever they hold: std::shuffle draws its swaps from the length alone. */
  ghost predicate Positional(shuffle: Shuffle) {
    forall s: seq<nat> :: MovedBy(shuffle, s)
  }

  ghost predicate MovedBy(shuffle: Shuffle, s: seq<nat>) {
    var perm := shuffle(Iota(|s|));
    |shuffle(s)| == |perm| == |s| && forall i | 0 <= i < |s| :: perm[i] < |s| && shuffle(s)[i] == s[perm[i]]
  }

  /** Leaving everything in place is one such shuffle. */
  lemma InPlaceIsPositional()
    ensures var inPlace: Shuffle := s => s; Permutes(inPlace) && Positional(inPlace)
  {
    var inPlace: Shuffle := s => s;
    forall s: seq<nat> ensures MovedBy(inPlace, s) {
    }
  }

  /** A partition by identifiers: the centroids, and the list of each cell in slot order. */
  datatype Listing = Listing(centroids: seq<Point>, lists: seq<seq<RecordId>>)

  /** A partition as its clients see it: a search sorts what it finds, so only the membership of a cell matters. */
  datatype Filing = Filing(centroids: seq<Point>, members: seq<set<RecordId>>)

  function IdsAt(entries: seq<Entry>, slots: seq<nat>): seq<RecordId> {
    seq(|slots|, i requires 0 <= i < |slots| => if slots[i] < |entries| then entries[slots[i]].id else [])
  }

  function MembersIn(entries: seq<Entry>, lists: seq<seq<nat>>): seq<seq<RecordId>> {
    seq(|lists|, c requires 0 <= c < |lists| => IdsAt(entries, lists[c]))
  }

  /** The lists that a rebuild makes. */
  ghost function ListingOf(entries: seq<Entry>, p: Params): Listing
    requires VectorsFit(entries, p.dimensionality) && Permutes(p.shuffle)
  {
    Listing(Rebuilt(entries, p).centroids, MembersIn(entries, Rebuilt(entries, p).lists))
  }

  function Unordered(lists: seq<seq<RecordId>>): seq<set<RecordId>> {
    seq(|lists|, c requires 0 <= c < |lists| => Elements(lists[c]))
  }

  /** What a rebuild files where. */
  ghost function FilingOf(entries: seq<Entry>, p: Params): Filing
    requires VectorsFit(entries, p.dimensionality) && Permutes(p.shuffle)
  {
    Filing(ListingOf(entries, p).centroids, Unordered(ListingOf(entries, p).lists))
  }

  /** The live records of one table are those of the other, in the same order. */
  ghost predicate SameLive(a: seq<Entry>, b: seq<Entry>) {
    |Live(a)| == |Live(b)| && forall i | 0 <= i < |Live(a)| ::
      Live(a)[i] < |a| && Live(b)[i] < |b| && a[Live(a)[i]] == b[Live(b)[i]]
  }

  // ---------------------------------------------------------------- the same live records give the same partition

  lemma LiveInside(entries: seq<Entry>)
    ensures forall i | 0 <= i < |Live(entries)| :: Live(entries)[i] < |entries| && !entries[Live(entries)[i]].deleted
  {
    forall i | 0 <= i < |Live(entries)| ensures Live(entries)[i] < |entries| && !entries[Live(entries)[i]].deleted {
      assert Live(entries)[i] in Live(entries);
    }
  }

  lemma SamePoints(a: seq<Entry>, b: seq<Entry>)
    requires SameLive(a, b)
    ensures PointsAt(a, Live(a)) == PointsAt(b, Live(b))
  {
    hide Values, LiveSlots;
  }

  lemma SameSeeds(a: seq<Entry>, b: seq<Entry>, p: Params)
    requires SameLive(a, b) && Live(a) != [] && VectorsFit(a, p.dimensionality) && VectorsFit(b, p.dimensionality)
    requires Permutes(p.shuffle) && Positional(p.shuffle)
    ensures Seeds(a, p) == Seeds(b, p)
  {
    var s, t := p.shuffle(Live(a)), p.shuffle(Live(b));
    assert MovedBy(p.shuffle, Live(a)) && MovedBy(p.shuffle, Live(b));
    ShuffledFacts(p.shuffle, Live(a));
    ShuffledFacts(p.shuffle, Live(b));
    hide Values, LiveSlots, CellCount, Permutes, Positional;
    forall i | 0 <= i < |Seeds(a, p)| ensures Seeds(a, p)[i] == Seeds(b, p)[i] {
      assert a[s[i]] == b[t[i]];
    }
  }

  lemma {:induction false} SameMembers(a: seq<Entry>, b: seq<Entry>, s: seq<nat>, t: seq<nat>, assignment: seq<nat>,
                             c: nat)
    requires |assignment| == |s| == |t|
    requires forall i | 0 <= i < |s| :: s[i] < |a| && t[i] < |b| && a[s[i]].id == b[t[i]].id
    ensures IdsAt(a, ListFor(s, assignment, c)) == IdsAt(b, ListFor(t, assignment, c))
    decreases |s|
  {
    var n := |s| - 1;
    if n >= 0 {
      SameMembers(a, b, s[..n], t[..n], assignment[..n], c);
      var f, g := ListFor(s[..n], assignment[..n], c), ListFor(t[..n], assignment[..n], c);
      hide ListFor;
      IdsSnoc(a, f, s[n]);
      IdsSnoc(b, g, t[n]);
      assert f + [] == f && g + [] == g;
      ListForStep(s, assignment, c);
      ListForStep(t, assignment, c);
    }
  }

  lemma ListForStep(live: seq<nat>, assignment: seq<nat>, c: nat)
    requires |assignment| == |live| > 0
    ensures var n := |live| - 1;
      ListFor(live, assignment, c)
      == ListFor(live[..n], assignment[..n], c) + if assignment[n] == c then [live[n]] else []
  {
  }

  lemma IdsSnoc(entries: seq<Entry>, slots: seq<nat>, x: nat)
    requires x < |entries|
    ensures IdsAt(entries, slots + [x]) == IdsAt(entries, slots) + [entries[x].id]
  {
  }

  /** A positional shuffle gives tables with the same live records the same lists, whatever their tombstones. */
  lemma SameListing(a: seq<Entry>, b: seq<Entry>, p: Params)
    requires SameLive(a, b) && VectorsFit(a, p.dimensionality) && VectorsFit(b, p.dimensionality)
    requires Permutes(p.shuffle) && Positional(p.shuffle)
    ensures ListingOf(a, p) == ListingOf(b, p)
  {
    hide Seeds, PointsAt, Clustered, LiveSlots, ListFor, Permutes, Positional;
    if Live(a) != [] {
      SamePoints(a, b);
      SameSeeds(a, b, p);
      var s := FinalState(a, p);
      assert FinalState(b, p) == s;
      forall c | 0 <= c < |s.centroids|
        ensures IdsAt(a, ListFor(Live(a), s.assignment, c)) == IdsAt(b, ListFor(Live(b), s.assignment, c))
      {
        SameMembers(a, b, Live(a), Live(b), s.assignment, c);
      }
      hide FinalState, IdsAt;
      assert MembersIn(a, Rebuilt(a, p).lists) == MembersIn(b, Rebuilt(b, p).lists);
    } else {
      assert Live(b) == [];
    }
  }

  // ---------------------------------------------------------------- live records in id order

  function LiveIds(entries: seq<Entry>): seq<RecordId> { IdsAt(entries, Live(entries)) }

  /** The identifiers of the live slots ascend. */
  ghost predicate LiveAscending(entries: seq<Entry>) { Ascending(LiveIds(entries), IdLess) }

  lemma LiveIdMembers(entries: seq<Entry>, ids: map<RecordId, nat>, dim: nat, id: RecordId)
    requires Named(entries, ids, dim)
    ensures id in LiveIds(entries) <==> id in Contents(entries, ids)
  {
    LiveInside(entries);
    hide LiveSlots;
    var live := Live(entries);
    if id in LiveIds(entries) {
      var i :| 0 <= i < |live| && entries[live[i]].id == id;
      assert ids[id] == live[i];
    }
    if id in Contents(entries, ids) {
      assert ids[id] in live;
      var i :| 0 <= i < |live| && live[i] == ids[id];
      assert LiveIds(entries)[i] == id;
    }
  }

  lemma LiveIdsDistinct(entries: seq<Entry>, ids: map<RecordId, nat>, dim: nat)
    requires Named(entries, ids, dim)
    ensures Distinct(LiveIds(entries))
  {
    LiveInside(entries);
    NatOrder();
    AscendingDistinct<nat>(Live(entries), NatLess);
    hide LiveSlots;
    var live := Live(entries);
    forall i, j | 0 <= i < j < |live| ensures LiveIds(entries)[i] != LiveIds(entries)[j] {
      assert ids[entries[live[i]].id] == live[i] && ids[entries[live[j]].id] == live[j];
    }
  }

  /** Sorting the live ids gives the ids in the order of a load. */
  lemma LiveIdsSorted(entries: seq<Entry>, ids: map<RecordId, nat>, dim: nat)
    requires Named(entries, ids, dim)
    ensures |Live(entries)| == |SortedIds(Contents(entries, ids).Keys)|
    ensures LiveAscending(entries) <==> LiveIds(entries) == SortedIds(Contents(entries, ids).Keys)
  {
    IdOrder();
    var listed, sorted := LiveIds(entries), SortedIds(Contents(entries, ids).Keys);
    LiveIdsDistinct(entries, ids, dim);
    SortDistinct(listed, IdLess);
    SortMembers(listed, IdLess);
    hide IdLess, SortedIds, LiveIds, Contents, Named, Sort;
    forall id ensures id in listed <==> id in sorted {
      LiveIdMembers(entries, ids, dim, id);
    }
    EnumerationUnique(Sort(listed, IdLess), sorted, IdLess);
    if LiveAscending(entries) { EnumerationUnique(listed, sorted, IdLess); }
    assert |listed| == |Live(entries)| by { LiveIdsLength(entries); }
  }

  lemma LiveIdsLength(entries: seq<Entry>)
    ensures |LiveIds(entries)| == |Live(entries)|
  {
    hide LiveSlots;
  }

  lemma {:induction false} EveryLive(entries: seq<Entry>, n: nat)
    requires n <= |entries| && forall i | 0 <= i < n :: !entries[i].deleted
    ensures LiveSlots(entries, n) == Iota(n)
    decreases n
  {
    if n > 0 { EveryLive(entries, n - 1); }
  }

  lemma RefilledFits(vectors: map<RecordId, Vector>, dim: nat)
    requires forall id | id in vectors :: |vectors[id]| == dim
    ensures VectorsFit(Refilled(vectors), dim)
    ensures |Refilled(vectors)| == |SortedIds(vectors.Keys)| && Live(Refilled(vectors)) == Iota(|Refilled(vectors)|)
  {
    SortedIdsListed(vectors.Keys);
    hide SortedIds;
    EveryLive(Refilled(vectors), |Refilled(vectors)|);
  }

  lemma StoredFits(entries: seq<Entry>, ids: map<RecordId, nat>, dim: nat)
    requires Named(entries, ids, dim)
    ensures VectorsFit(entries, dim) && VectorsFit(Refilled(Contents(entries, ids)), dim)
    ensures |Refilled(Contents(entries, ids))| == |Live(entries)|
    ensures Live(Refilled(Contents(entries, ids))) == Iota(|Live(entries)|)
  {
    RefilledFits(Contents(entries, ids), dim);
    LiveIdsSorted(entries, ids, dim);
    hide Refilled, SortedIds, LiveSlots;
  }

  /** The record that a load puts in place `i`. */
  lemma RefilledAt(vectors: map<RecordId, Vector>, i: nat)
    requires i < |SortedIds(vectors.Keys)|
    ensures var id := SortedIds(vectors.Keys)[i];
      id in vectors && i < |Refilled(vectors)| && Refilled(vectors)[i] == Entry(id, vectors[id], false)
  {
    SortedIdsListed(vectors.Keys);
    hide SortedIds;
  }

  /** A live record is the one reloaded in its place exactly when it has that identifier. */
  lemma SameRecord(entries: seq<Entry>, ids: map<RecordId, nat>, dim: nat, i: nat)
    requires Named(entries, ids, dim) && i < |Live(entries)|
    ensures Live(entries)[i] < |entries| && i < |SortedIds(Contents(entries, ids).Keys)|
    ensures i < |Refilled(Contents(entries, ids))| && i < |LiveIds(entries)|
    ensures entries[Live(entries)[i]] == Refilled(Contents(entries, ids))[i]
            <==> LiveIds(entries)[i] == SortedIds(Contents(entries, ids).Keys)[i]
  {
    LiveIdsSorted(entries, ids, dim);
    LiveInside(entries);
    hide SortedIds, LiveSlots;
    RefilledAt(Contents(entries, ids), i);
    hide Refilled;
    assert ids[entries[Live(entries)[i]].id] == Live(entries)[i];
  }

  /** A reload brings back the same live records in the same order exactly when the live ids ascend. */
  lemma SameLiveExactly(entries: seq<Entry>, ids: map<RecordId, nat>, dim: nat)
    requires Named(entries, ids, dim)
    ensures SameLive(entries, Refilled(Contents(entries, ids))) <==> LiveAscending(entries)
  {
    hide LiveSlots, SortedIds, LiveAscending, Refilled, Contents, LiveIds, Live;
    var re, listed := Refilled(Contents(entries, ids)), LiveIds(entries);
    var sorted := SortedIds(Contents(entries, ids).Keys);
    ReloadedLive(entries, ids, dim);
    LiveIdsSorted(entries, ids, dim);
    LiveIdsLength(entries);
    LiveInside(entries);
    assert |listed| == |sorted| == |re|;
    forall i | 0 <= i < |listed| ensures entries[Live(entries)[i]] == re[Live(re)[i]] <==> listed[i] == sorted[i] {
      SameRecord(entries, ids, dim, i);
    }
    if listed == sorted { assert forall i | 0 <= i < |listed| :: listed[i] == sorted[i]; }
  }

  /** A reload leaves every record live, in the place of its identifier. */
  lemma ReloadedLive(entries: seq<Entry>, ids: map<RecordId, nat>, dim: nat)
    requires Named(entries, ids, dim)
    ensures var re := Refilled(Contents(entries, ids));
      && |Live(re)| == |re| == |Live(entries)| && forall i | 0 <= i < |Live(re)| :: Live(re)[i] == i
  {
    StoredFits(entries, ids, dim);
    LiveIdsSorted(entries, ids, dim);
    hide LiveSlots, SortedIds, Refilled, Contents, Named;
  }

  /** Live records in id order keep their partition, list by list, through save and load, tombstones or not. */
  lemma ReloadKeepsPartition(entries: seq<Entry>, ids: map<RecordId, nat>, p: Params)
    requires Named(entries, ids, p.dimensionality) && Permutes(p.shuffle) && Positional(p.shuffle)
    requires LiveAscending(entries)
    ensures VectorsFit(entries, p.dimensionality) && VectorsFit(Refilled(Contents(entries, ids)), p.dimensionality)
    ensures ListingOf(Refilled(Contents(entries, ids)), p) == ListingOf(entries, p)
    ensures FilingOf(Refilled(Contents(entries, ids)), p) == FilingOf(entries, p)
  {
    StoredFits(entries, ids, p.dimensionality);
    SameLiveExactly(entries, ids, p.dimensionality);
    hide Refilled, Contents, LiveAscending, ListingOf, SameLive, Permutes, Positional;
    SameListing(entries, Refilled(Contents(entries, ids)), p);
  }
}
