/** The engine: collections under unique tags of one shared allocator. */
module Engines {
  import opened Ordering
  import opened Vectors
  import opened Errors
  import opened Arena
  import opened Allocator
  import opened SnapshotLayout
  import opened SnapshotRoundTrip
  import opened RecordStore
  import opened Indexing
  import opened Collections
  import opened Persistence
  import IvfModel

  // ---------------------------------------------------------------- two collections on one allocator

  /** A collection held these records while the arena was as given, and its index agreed with them or not. It reads
      the collection's own objects only. */
  ghost predicate Stood(d: Collection, live: LiveMap, memory: seq<Float32>, held: map<RecordId, SnapshotLayout.Stored>,
                        coherent: bool)
    reads d, Objects(d.index)
  {
    var s := Space(d.allocator.capacity, memory, d.mapBase, d.mapping);
    && GoodSpace(s) && BlocksLaidOut(s.capacity, live) && Housed(s, live, d.tag, d.Dim(), d.records, {})
    && d.recordCount == |d.records| && d.Seeded() && held == Contents(s, d.records, d.Dim())
    && coherent == Holds(d.index, VectorsIn(held), d.Dim(), d.metric)
  }

  lemma Standing(d: Collection)
    requires d.Sound({}) && d.Seeded()
    ensures Stood(d, d.allocator.live, d.allocator.memory, d.Stored(), d.Valid())
  {
    hide Holds, VectorsIn, Housed, Contents, TiledBy, AccountedBy, BlocksLaidOut;
    TilingLaysOut(d.allocator.capacity, d.allocator.freeByOffset, d.allocator.live);
  }

  /** A sound collection stays sound, with the same records, and stays coherent or incoherent, whatever is done to the
      arena under another tag. */
  lemma StillStanding(d: Collection, other: Tag, live: LiveMap, memory: seq<Float32>,
                      held: map<RecordId, SnapshotLayout.Stored>, coherent: bool)
    requires Stood(d, live, memory, held, coherent) && d.tag != other && d.allocator.Valid()
    requires ForeignBlocks(d.allocator.live, d.allocator.memory, other) == ForeignBlocks(live, memory, other)
    ensures d.Sound({}) && d.Seeded() && d.Stored() == held && (d.Valid() <==> coherent)
  {
    hide Holds, VectorsIn, Housed, Contents, ForeignBlocks, TiledBy, AccountedBy, BlocksLaidOut;
    var s := Space(d.allocator.capacity, memory, d.mapBase, d.mapping);
    HouseSurvives(s, d.AddressSpace(), live, d.allocator.live, d.tag, other, d.Dim(), d.records);
  }

  // ---------------------------------------------------------------- the registry

  /** One collection of the registry: its configuration, everything its operations may change, and whether its index
      agrees with its records. Only a loaded graph can disagree. */
  datatype Holding = Holding(config: Config, state: Collections.State, coherent: bool)

  /** The collection keeps its records and its index. */
  ghost predicate Untouched(a: Holding, b: Holding) {
    && b.config == a.config && b.coherent == a.coherent
    && b.state.stored == a.state.stored && b.state.kind == a.state.kind && b.state.index == a.state.index
  }

  /** Every collection but the named one is kept. */
  ghost predicate OnlyChanged(name: Bytes, a: map<Bytes, Holding>, b: map<Bytes, Holding>) {
    && a.Keys == b.Keys && (name in a ==> b[name].config == a[name].config)
    && forall m | m in a && m != name :: Untouched(a[m], b[m])
  }

  /** An insert through a handle. */
  ghost predicate InsertAt(a: map<Bytes, Holding>, name: Bytes, id: RecordId, vec: Vector, meta: Option<Metadata>,
                           level: nat, metrics: Byte -> Metric, capacity: nat, s: Status, b: map<Bytes, Holding>) {
    && OnlyChanged(name, a, b)
    && if name !in a then s == Error(NotFound)
       else
         && b[name].coherent
         && InsertStep(a[name].state, id, vec, meta, level, a[name].config.dimensionality,
                       metrics(a[name].config.metric), capacity, s, b[name].state)
  }

  ghost predicate BatchAt(a: map<Bytes, Holding>, name: Bytes, inputs: seq<Record>, levels: nat -> nat, tag: Tag,
                          metrics: Byte -> Metric, capacity: nat, s: Status, b: map<Bytes, Holding>) {
    && OnlyChanged(name, a, b)
    && if name !in a then s == Error(NotFound)
       else
         && b[name].coherent
         && BatchStep(a[name].state, inputs, levels, tag, a[name].config.dimensionality,
                      metrics(a[name].config.metric), capacity, s, b[name].state)
  }

  ghost predicate RemoveAt(a: map<Bytes, Holding>, name: Bytes, id: RecordId, s: Status, b: map<Bytes, Holding>) {
    && OnlyChanged(name, a, b)
    && if name !in a then s == Error(NotFound)
       else
         && b[name].coherent && RemoveStep(a[name].state, id, s, b[name].state)
  }

  /** An index built through a handle; a new index makes the collection coherent whatever the old one was. */
  ghost predicate BuildAt(a: map<Bytes, Holding>, name: Bytes, indexType: Byte, params: IndexParams,
                          levels: nat -> nat, metrics: Byte -> Metric, shuffles: nat -> IvfModel.Shuffle, s: Status,
                          b: map<Bytes, Holding>) {
    && OnlyChanged(name, a, b)
    && if name !in a then s == Error(NotFound)
       else
         && b[name].coherent == (s.Ok? || a[name].coherent)
         && BuildStep(a[name].state, indexType, params, levels, a[name].config.dimensionality,
                      metrics(a[name].config.metric), shuffles, s, b[name].state)
  }

  ghost predicate QueryAt(a: map<Bytes, Holding>, name: Bytes, q: Vector, k: nat, efSearch: nat, nprobe: nat,
                          metrics: Byte -> Metric, exact: bool, r: Result<seq<Candidate>>, b: map<Bytes, Holding>) {
    && OnlyChanged(name, a, b)
    && if name !in a then r == Failure(NotFound)
       else
         && b[name].coherent
         && QueryStep(a[name].state, q, k, efSearch, nprobe, a[name].config.dimensionality,
                      metrics(a[name].config.metric), exact, r, b[name].state)
  }

  /** The collections present on both sides are kept. */
  ghost predicate Undisturbed(a: map<Bytes, Holding>, b: map<Bytes, Holding>) {
    forall m | m in a && m in b :: Untouched(a[m], b[m])
  }

  /** One more collection in the registry. */
  ghost predicate AddedAt(a: map<Bytes, Holding>, added: Holding, b: map<Bytes, Holding>) {
    && added.config.name !in a && b.Keys == a.Keys + {added.config.name} && Undisturbed(a, b)
    && b[added.config.name] == added
  }

  function CreateStatus(name: Bytes, dimensionality: nat, metric: Byte, taken: bool): (s: Status)
    ensures s == Error(InvalidName) <==> |name| < 1 || |name| > 255
    ensures s == Error(InvalidDimensionality) <==> 1 <= |name| <= 255 && !(1 <= dimensionality <= 65536)
    ensures s == Error(InvalidMetric) <==> 1 <= |name| <= 255 && 1 <= dimensionality <= 65536 && metric !in {0, 1, 2}
    ensures s.Ok? <==> !taken && 1 <= |name| <= 255 && 1 <= dimensionality <= 65536 && metric in {0, 1, 2}
    ensures taken && 1 <= |name| <= 255 && 1 <= dimensionality <= 65536 && metric in {0, 1, 2} ==>
      s == Error(NameConflict)
  {
    if name == [] || |name| > 255 then Error(InvalidName)
    else if dimensionality < 1 || dimensionality > 65536 then Error(InvalidDimensionality)
    else if metric > 2 then Error(InvalidMetric)
    else if taken then Error(NameConflict)
    else Ok
  }

  /** A rejected creation changes nothing; otherwise there is one more collection, without records. */
  ghost predicate CreateAt(a: map<Bytes, Holding>, config: Config, s: Status, b: map<Bytes, Holding>) {
    && s == CreateStatus(config.name, config.dimensionality, config.metric, config.name in a)
    && if s.Error? then b == a
       else EmptyAdded(a, config, b)
  }

  ghost predicate EmptyAdded(a: map<Bytes, Holding>, config: Config, b: map<Bytes, Holding>) {
    config.name in b && EmptyHolding(config, b[config.name]) && AddedAt(a, b[config.name], b)
  }

  /** A coherent collection without records or index. */
  ghost predicate EmptyHolding(config: Config, h: Holding) {
    && h.config == config && h.coherent
    && h.state.stored == map[] && h.state.kind == Unindexed && h.state.index == Absent
  }

  lemma Created(a: map<Bytes, Holding>, config: Config, added: Holding, b: map<Bytes, Holding>)
    requires CreateStatus(config.name, config.dimensionality, config.metric, config.name in a).Ok?
    requires AddedAt(a, added, b) && EmptyHolding(config, added)
    ensures CreateAt(a, config, Ok, b)
  {
    hide Undisturbed, CreateStatus;
  }

  /** A deletion takes one collection out and gives all of its blocks back; the others keep their records. */
  ghost predicate DeleteAt(a: map<Bytes, Holding>, before: LiveMap, name: Bytes, fails: bool, tag: Tag, s: Status,
                           b: map<Bytes, Holding>, after: LiveMap) {
    && s == (if name !in a then Error(NotFound) else if fails then Error(DeletionFailed) else Ok)
    && if s.Error? then b == a && after == before
       else b.Keys == a.Keys - {name} && Undisturbed(a, b) && after == Allocator.Without(before, tag)
  }

  /** A load reports what decoding the image reports, or a taken name; otherwise the decoded collection is registered,
      and it is coherent exactly when its graph region, if any, is legal over its records. */
  ghost predicate LoadAt(a: map<Bytes, Holding>, decoded: Result<Loaded>, metrics: Byte -> Metric,
                         shuffles: nat -> IvfModel.Shuffle, r: Result<Collection>, b: map<Bytes, Holding>) {
    match decoded
    case Failure(category) => r == Failure(category) && b == a
    case Success(l) =>
      if l.config.name in a then r == Failure(NameConflict) && b.Keys == a.Keys && Undisturbed(a, b)
      else r.Success? && l.config.name in b && LoadedHolding(l, metrics, shuffles, b[l.config.name])
           && AddedAt(a, b[l.config.name], b)
  }

  ghost predicate LoadedHolding(l: Loaded, metrics: Byte -> Metric, shuffles: nat -> IvfModel.Shuffle,
                                added: Holding) {
    && added.config == l.config && added.state.stored == l.records
    && RebuiltState(added.state.kind, added.state.index, l, metrics(l.config.metric), shuffles)
    && (added.coherent <==> LegalIndex(l, metrics(l.config.metric)))
  }

  ghost function HoldingOf(c: Collection): Holding
    reads c, c.allocator, Objects(c.index)
  {
    Holding(c.config, c.Now(), c.Valid())
  }

  /** The registry at one point in time: the arena, what each collection held, and its index. */
  datatype Snapshot =
    Snapshot(live: LiveMap, memory: seq<Float32>, held: map<Bytes, Holding>, indexes: map<Bytes, Index>)

  /** No two collections share an index object. */
  ghost predicate Unshared(indexes: map<Bytes, Index>) {
    forall a, b | a in indexes && b in indexes && a != b :: Objects(indexes[a]) !! Objects(indexes[b])
  }

  /** No two collections share a tag. */
  ghost predicate Tagged(collections: map<Bytes, Collection>) {
    forall a, b | a in collections && b in collections && a != b :: collections[a].tag != collections[b].tag
  }

  class Engine {
    const allocator: MemoryAllocator

    /** The distance calculator by metric, and std::shuffle by seed. */
    const metrics: Byte -> Metric
    const shuffles: nat -> IvfModel.Shuffle

    var collections: map<Bytes, Collection>
    var nextTag: Tag

    function Indexes(): map<Bytes, Index>
      reads this, collections.Values
    {
      map name | name in collections :: collections[name].index
    }

    /** The allocator, the collections and their indexes. */
    ghost function Repr(): set<object>
      reads this, collections.Values
    {
      {allocator} + (set name | name in collections :: collections[name] as object)
      + (set name, o | name in collections && o in Objects(collections[name].index) :: o)
    }

    /** A collection of this engine under its own name, its store in order. */
    ghost predicate Fits(c: Collection, name: Bytes)
      reads c, c.allocator
    {
      && c.allocator == allocator && c.config.name == name && c.metric == metrics(c.config.metric)
      && c.shuffles == shuffles && c.Sound({}) && c.Seeded()
    }

    ghost predicate Registered(name: Bytes)
      requires name in collections
      reads this, collections[name], collections[name].allocator
    {
      collections[name].tag < nextTag && Fits(collections[name], name)
    }

    ghost predicate Seeded() { forall seed :: IvfModel.Permutes(shuffles(seed)) }

    /** Every collection's store is in order, no two share a block or an index, and every block belongs to one. */
    ghost predicate Valid()
      reads this, collections.Values, Repr()
      reads set c | c in collections.Values :: c.allocator
      reads set c, o | c in collections.Values && o in Objects(c.index) :: o
    {
      && allocator.Valid() && Seeded() && Tagged(collections) && Unshared(Indexes())
      && (forall name | name in collections :: Registered(name))
      && (forall o | o in allocator.live :: Owned(allocator.live[o].tag))
    }

    predicate Owned(tag: Tag)
      reads this
    {
      exists name :: name in collections && collections[name].tag == tag
    }

    /** The named collection's index agrees with its records. */
    ghost predicate Coherent(name: Bytes)
      reads this, collections.Values
      reads set c | c in collections.Values :: c.allocator
      reads set c, o | c in collections.Values && o in Objects(c.index) :: o
    {
      name in collections ==> collections[name].Valid()
    }

    /** The state of every collection. */
    ghost function Now(): map<Bytes, Holding>
      reads this, collections.Values
      reads set c | c in collections.Values :: c.allocator
      reads set c, o | c in collections.Values && o in Objects(c.index) :: o
    {
      map name | name in collections :: HoldingOf(collections[name])
    }

    constructor (capacityBytes: Size, metrics: Byte -> Metric, shuffles: nat -> IvfModel.Shuffle)
      requires forall seed :: IvfModel.Permutes(shuffles(seed))
      ensures Valid() && fresh(Repr()) && Now() == map[]
    {
      allocator := new MemoryAllocator(capacityBytes);
      this.metrics, this.shuffles := metrics, shuffles;
      collections, nextTag := map[], 1;
      new;
      hide MemoryAllocator.Valid, IvfModel.Permutes;
      assert Repr() == {allocator};
    }

    // -------------------------------------------------------------- the other collections

    ghost function Taken(): Snapshot
      reads this, collections.Values, Repr()
      reads set c | c in collections.Values :: c.allocator
      reads set c, o | c in collections.Values && o in Objects(c.index) :: o
    {
      Snapshot(allocator.live, allocator.memory, Now(), Indexes())
    }

    /** A collection of this engine as it stood at the time of the snapshot. */
    ghost predicate StoodAs(d: Collection, m: Bytes, past: Snapshot)
      reads d, Objects(d.index)
    {
      && d.allocator == allocator && d.config.name == m && d.metric == metrics(d.config.metric)
      && d.shuffles == shuffles
      && m in past.held && m in past.indexes && d.index == past.indexes[m] && past.held[m].config == d.config
      && past.held[m].state.kind == KindOf(d.index) && past.held[m].state.index == StateOf(d.index)
      && Stood(d, past.live, past.memory, past.held[m].state.stored, past.held[m].coherent)
    }

    /** What belongs to the collections other than `name`. */
    ghost function Rest(name: Bytes): set<object>
      reads this, collections.Values
    {
      (set m | m in collections && m != name :: collections[m] as object)
      + (set m, o | m in collections && m != name && o in Objects(collections[m].index) :: o)
    }

    /** The collections other than `name` as they stood at the time of the snapshot, inside `rest`: nothing done
        outside this object and `rest` changes that. */
    ghost predicate OthersStood(name: Bytes, past: Snapshot, rest: set<object>)
      reads this, rest
    {
      && past.held.Keys == past.indexes.Keys == collections.Keys
      && (forall o | o in past.live :: Owned(past.live[o].tag))
      && (forall m | m in collections && m != name ::
            collections[m] in rest && Objects(collections[m].index) <= rest && StoodAs(collections[m], m, past))
      && (forall m | m in collections :: collections[m].tag < nextTag)
    }

    /** What an operation on a collection may change. */
    ghost function Reach(name: Bytes): set<object>
      requires name in collections
      reads this, collections[name]
    {
      {collections[name], allocator} + Objects(collections[name].index)
    }

    lemma StandsNow(m: Bytes)
      requires m in collections && Registered(m)
      ensures StoodAs(collections[m], m, Taken())
    {
      hide Stood, Collection.Valid, Collection.Stored, Collection.Sound, IvfModel.Permutes, StateOf, KindOf;
      Standing(collections[m]);
    }

    /** Collections under different tags that share no index share nothing. */
    lemma AsideNow(name: Bytes)
      requires Unshared(Indexes()) && name in collections && Tagged(collections)
      ensures Rest(name) !! Reach(name) && Rest(name) <= Repr()
    {
      forall m, o | m in collections && m != name && o in Objects(collections[m].index) ensures o !in Reach(name) {
        assert Objects(Indexes()[m]) !! Objects(Indexes()[name]);
      }
    }

    lemma OutOfReach(name: Bytes)
      requires name in collections
      ensures this !in Reach(name)
    {
    }

    /** What never changes about a registered collection. */
    ghost predicate Listed(name: Bytes)
      requires name in collections
      reads this
    {
      var c := collections[name];
      && c.allocator == allocator && c.tag < nextTag && c.config.name == name && c.metric == metrics(c.config.metric)
      && c.shuffles == shuffles
    }

    lemma IsListed(name: Bytes)
      requires name in collections && Registered(name)
      ensures Listed(name)
    {
    }

    lemma NowAt(name: Bytes)
      requires name in collections
      ensures Now().Keys == collections.Keys && Now()[name] == HoldingOf(collections[name])
      ensures Now()[name].config == collections[name].config
    {
      hide Collection.Now, Collection.Valid;
    }

    /** The invariant, split into what an operation on one collection may touch and what it cannot. */
    lemma Splits(name: Bytes)
      requires Valid() && name in collections
      ensures Listed(name) && Fits(collections[name], name) && Seeded() && Tagged(collections) && Unshared(Indexes())
      ensures OthersStood(name, Taken(), Rest(name)) && WasAs(name, Taken())
      ensures this !in Reach(name) && Reach(name) + Rest(name) <= Repr() && Rest(name) !! Reach(name)
    {
      hide Stood, Fits, HoldingOf, MemoryAllocator.Valid, StoodAs, Unshared, Tagged, Rest, Seeded;
      OutOfReach(name);
      AsideNow(name);
      forall m | m in collections ensures Registered(m) && StoodAs(collections[m], m, Taken()) {
        StandsNow(m);
      }
      RestHolds(name);
      TagsBelow();
      IsListed(name);
      NowAt(name);
      WasNow(name);
    }

    /** What the snapshot says of the named collection: its configuration, its index, and what other tags held. */
    ghost predicate WasAs(name: Bytes, past: Snapshot)
      requires name in collections
      reads this
    {
      var c := collections[name];
      && name in past.held && name in past.indexes && past.held[name].config == c.config
      && past.held[name].state.foreign == ForeignBlocks(past.live, past.memory, c.tag)
    }

    lemma WasNow(name: Bytes)
      requires name in collections && Listed(name)
      ensures WasAs(name, Taken())
    {
      hide ForeignBlocks, Collection.Stored, Collection.Valid, StateOf, KindOf;
    }

    lemma RestHolds(name: Bytes)
      ensures forall m | m in collections && m != name ::
        collections[m] in Rest(name) && Objects(collections[m].index) <= Rest(name)
    {
    }

    lemma TagsBelow()
      requires forall m | m in collections :: Registered(m)
      ensures forall m | m in collections :: collections[m].tag < nextTag
    {
      hide Fits;
      forall m | m in collections ensures collections[m].tag < nextTag { assert Registered(m); }
    }

    lemma IndexesNow(name: Bytes, past: Snapshot, rest: set<object>)
      requires name in collections && OthersStood(name, past, rest)
      ensures Indexes() == past.indexes[name := collections[name].index]
    {
      hide Stood, StateOf, Collection.Valid, Owned;
      forall m | m in collections && m != name ensures collections[m].index == past.indexes[m] {
        assert StoodAs(collections[m], m, past);
      }
    }

    /** A collection stands still, whatever was done to the arena under another tag. */
    lemma StandsOn(m: Bytes, tag: Tag, past: Snapshot)
      requires m in collections && collections[m].tag < nextTag && collections[m].tag != tag && allocator.Valid()
      requires StoodAs(collections[m], m, past)
      requires ForeignBlocks(allocator.live, allocator.memory, tag) == ForeignBlocks(past.live, past.memory, tag)
      ensures Registered(m) && m in past.held && m in Now() && Untouched(past.held[m], Now()[m])
    {
      hide Stood, Collection.Valid, Collection.Stored, Collection.Sound, MemoryAllocator.Valid, IvfModel.Permutes,
        ForeignBlocks, StateOf, KindOf;
      StillStanding(collections[m], tag, past.live, past.memory, past.held[m].state.stored, past.held[m].coherent);
    }

    /** After an operation on one collection that left alone what other tags hold, the engine is in order. */
    lemma Rejoins(name: Bytes, past: Snapshot, rest: set<object>)
      requires name in collections && OthersStood(name, past, rest)
      requires Seeded() && Tagged(collections) && Unshared(past.indexes[name := collections[name].index])
      requires Registered(name) && past.held[name].config == collections[name].config
      requires var tag := collections[name].tag;
        ForeignBlocks(allocator.live, allocator.memory, tag) == ForeignBlocks(past.live, past.memory, tag)
      ensures Valid() && OnlyChanged(name, past.held, Now())
      ensures name in Now() && Now()[name] == HoldingOf(collections[name])
    {
      hide Collection.Valid, Collection.Now, Collection.Sound, MemoryAllocator.Valid, ForeignBlocks, StoodAs, Unshared,
        Seeded, Registered, Untouched, Tagged, HoldingOf;
      var tag := collections[name].tag;
      IndexesNow(name, past, rest);
      AllocatorSound(name);
      NowAt(name);
      forall m | m in collections && m != name
        ensures Registered(m) && m in Now() && Untouched(past.held[m], Now()[m])
      {
        OtherTag(name, m);
        StandsOn(m, tag, past);
      }
      forall o | o in allocator.live ensures Owned(allocator.live[o].tag) {
        ForeignSame(past.live, past.memory, allocator.live, allocator.memory, tag, o);
      }
    }

    lemma OtherTag(name: Bytes, m: Bytes)
      requires Tagged(collections) && name in collections && m in collections && m != name
      ensures collections[m].tag != collections[name].tag
    {
    }

    lemma AllocatorSound(name: Bytes)
      requires name in collections && Registered(name)
      ensures allocator.Valid()
    {
      hide MemoryAllocator.Valid;
    }

    lemma StaysRegistered(name: Bytes)
      requires name in collections && Listed(name) && Fits(collections[name], name)
      ensures Registered(name)
    {
      hide Fits;
    }

    /** After an operation on one collection that left alone what other tags hold, the engine is in order. */
    lemma Returns(name: Bytes, past: Snapshot, rest: set<object>)
      requires name in collections && Listed(name) && WasAs(name, past) && OthersStood(name, past, rest)
      requires Seeded() && Tagged(collections) && Unshared(past.indexes[name := collections[name].index])
      requires Fits(collections[name], name) && collections[name].Now().foreign == past.held[name].state.foreign
      ensures Valid() && OnlyChanged(name, past.held, Now())
      ensures name in Now() && Now()[name] == HoldingOf(collections[name])
    {
      hide Fits, Registered, OthersStood, Collection.Now, Collection.Valid, ForeignBlocks, Tagged, Unshared, Seeded,
        Valid, Now, OnlyChanged;
      StaysRegistered(name);
      collections[name].NowForeign();
      Rejoins(name, past, rest);
    }

    // -------------------------------------------------------------- the registry's own operations

    lemma NoIndexObject(index: Index)
      ensures this !in Objects(index) && allocator !in Objects(index)
    {
    }

    lemma TagUnused()
      requires Valid()
      ensures TagBlocks(allocator.live, nextTag) == {} && !Owned(nextTag)
    {
      hide Fits, MemoryAllocator.Valid, Unshared, Tagged, Seeded;
      forall name | name in collections ensures collections[name].tag < nextTag { assert Registered(name); }
      forall o | o in allocator.live ensures allocator.live[o].tag < nextTag { assert Owned(allocator.live[o].tag); }
    }

    /** Hands out the next tag; nothing is live under it. */
    method ReserveTag() returns (tag: Tag)
      requires Valid()
      modifies this`nextTag
      ensures Valid() && Spare(tag) && Now() == old(Now())
    {
      hide Fits, MemoryAllocator.Valid, Unshared, Seeded, HoldingOf, TagBlocks;
      TagUnused();
      label Before:
      tag, nextTag := nextTag, nextTag + 1;
      forall m | m in collections ensures Registered(m) && HoldingOf(collections[m]) == old(HoldingOf(collections[m])) {
        assert old@Before(Registered(m));
        NoIndexObject(collections[m].index);
      }
      assert Indexes() == old(Indexes());
      assert forall t: Tag :: Owned(t) == old(Owned(t));
    }

    /** A tag handed out and not used by any registered collection. */
    ghost predicate Spare(tag: Tag)
      reads this, allocator
    {
      tag < nextTag && !Owned(tag) && TagBlocks(allocator.live, tag) == {}
    }

    /** Enters a collection under its name. */
    method Register(c: Collection)
      requires Valid() && Joins(c)
      modifies this`collections
      ensures Valid() && collections == old(collections)[c.config.name := c]
      ensures HoldingOf(c) == old(HoldingOf(c)) && AddedAt(old(Now()), HoldingOf(c), Now())
    {
      hide Valid, Fits, MemoryAllocator.Valid, Unshared, Tagged, Seeded, HoldingOf, TagBlocks, Repr, AddedAt, Indexes,
        Now, Owned;
      ghost var before, indexes, known, past := Now(), Indexes(), Repr(), collections;
      IndexesKnown();
      IndexesAre();
      HoldingsAre();
      Parts();
      SpareTag(c.tag);
      OwnersAre();
      label Before:
      collections := collections[c.config.name := c];
      forall m | m in past ensures Registered(m) && HoldingOf(collections[m]) == before[m] {
        assert old@Before(Registered(m));
        NoIndexObject(collections[m].index);
      }
      NoIndexObject(c.index);
      assert Registered(c.config.name);
      StillOwned(c.tag, past);
      assert forall o | o in allocator.live :: Owned(allocator.live[o].tag);
      Enters(past, c, before, indexes, known);
    }

    /** After a collection joined coherent ones, the engine is in order. */
    lemma Enters(past: map<Bytes, Collection>, c: Collection, before: map<Bytes, Holding>, indexes: map<Bytes, Index>,
                 known: set<object>)
      requires collections == past[c.config.name := c] && c.config.name !in past
      requires past.Keys == before.Keys == indexes.Keys && forall m | m in past :: indexes[m] == past[m].index
      requires forall m | m in past :: before[m] == HoldingOf(past[m]) && past[m].tag != c.tag
      requires forall m | m in collections :: Registered(m)
      requires allocator.Valid() && Seeded() && Tagged(past) && Unshared(indexes)
      requires Objects(c.index) !! known && forall m | m in indexes :: Objects(indexes[m]) <= known
      requires forall o | o in allocator.live :: Owned(allocator.live[o].tag)
      ensures Valid() && AddedAt(before, HoldingOf(c), Now())
    {
      hide Registered, MemoryAllocator.Valid, Unshared, Tagged, Seeded, HoldingOf, AddedAt, Valid, Now, Objects;
      IndexesAdded(indexes, c.config.name);
      OneReplaced(indexes, c.config.name, c.index, known);
      OneTagged(past, c.config.name, c);
      NowAdded(before, c.config.name);
      Whole();
    }

    lemma SpareTag(tag: Tag)
      requires Spare(tag)
      ensures forall m | m in collections :: collections[m].tag != tag
      ensures forall o | o in allocator.live :: allocator.live[o].tag != tag
    {
      forall o | o in allocator.live ensures allocator.live[o].tag != tag {
        assert o !in TagBlocks(allocator.live, tag);
      }
      forall m | m in collections ensures collections[m].tag != tag {
        assert collections[m].tag == tag ==> Owned(tag);
      }
    }

    lemma OwnersAre()
      requires forall o | o in allocator.live :: Owned(allocator.live[o].tag)
      ensures forall o | o in allocator.live ::
        exists n :: n in collections && collections[n].tag == allocator.live[o].tag
    {
    }

    lemma HoldingsAre()
      ensures Now().Keys == collections.Keys && forall m | m in collections :: Now()[m] == HoldingOf(collections[m])
    {
      hide HoldingOf;
    }

    lemma IndexesAre()
      ensures Indexes().Keys == collections.Keys && forall m | m in collections :: Indexes()[m] == collections[m].index
    {
    }

    lemma IndexesAdded(before: map<Bytes, Index>, name: Bytes)
      requires name in collections && before.Keys + {name} == collections.Keys
      requires forall m | m in collections && m != name :: m in before && before[m] == collections[m].index
      ensures Indexes() == before[name := collections[name].index]
    {
    }

    lemma IndexesKnown()
      ensures forall m | m in Indexes() :: Objects(Indexes()[m]) <= Repr()
    {
    }

    /** The collections that are still registered own their tags. */
    lemma StillOwned(tag: Tag, before: map<Bytes, Collection>)
      requires forall n | n in before && before[n].tag != tag :: n in collections && collections[n] == before[n]
      ensures forall t: Tag | t != tag && (exists n :: n in before && before[n].tag == t) :: Owned(t)
    {
      forall t: Tag | t != tag && exists n :: n in before && before[n].tag == t ensures Owned(t) {
        var n :| n in before && before[n].tag == t;
        assert n in collections && collections[n].tag == t;
      }
    }

    lemma NowAdded(before: map<Bytes, Holding>, name: Bytes)
      requires name in collections && name !in before && before.Keys + {name} == collections.Keys
      requires forall m | m in before :: before[m] == HoldingOf(collections[m])
      requires collections[name].config.name == name
      ensures AddedAt(before, HoldingOf(collections[name]), Now())
    {
      hide Collection.Now, Collection.Valid;
    }

    lemma Parts()
      requires Valid()
      ensures allocator.Valid() && Seeded() && Tagged(collections) && Unshared(Indexes())
      ensures (forall m | m in collections :: Registered(m))
      ensures forall o | o in allocator.live :: Owned(allocator.live[o].tag)
    {
      hide Fits, MemoryAllocator.Valid, Unshared, Seeded, Tagged;
    }

    lemma Whole()
      requires allocator.Valid() && Seeded() && Tagged(collections) && Unshared(Indexes())
      requires forall m | m in collections :: Registered(m)
      requires forall o | o in allocator.live :: Owned(allocator.live[o].tag)
      ensures Valid()
    {
      hide Registered, MemoryAllocator.Valid, Unshared, Seeded, Tagged;
    }

    /** A collection that can be entered: of this engine, its store in order, under a spare tag and a new name, sharing
        no object. */
    ghost predicate Joins(c: Collection)
      reads this, collections.Values, allocator, c, c.allocator
    {
      && Fits(c, c.config.name) && Spare(c.tag)
      && c.config.name !in collections && c !in Repr() && Objects(c.index) !! Repr()
    }

    /** The engine is as it was as long as none of its objects changed. */
    twostate lemma Unaffected()
      requires unchanged(this) && unchanged(old(Repr())) && old(Valid())
      ensures Valid() && Now() == old(Now())
    {
      hide Collection.Sound, MemoryAllocator.Valid, Unshared, Seeded, Tagged, Collection.Now, Collection.Valid;
      forall m | m in collections ensures Registered(m) && HoldingOf(collections[m]) == old(HoldingOf(collections[m])) {
        assert old(Registered(m));
        assert collections[m].allocator == allocator && unchanged(collections[m]);
        assert forall o: object | o in Objects(collections[m].index) :: o in old(Repr());
      }
    }

    /** Creates an empty collection under a fresh tag; a rejected request changes nothing. */
    method CreateCollection(config: Config) returns (s: Status)
      requires Valid()
      modifies this
      ensures Valid() && CreateAt(old(Now()), config, s, Now())
    {
      hide Valid, HoldingOf, TagBlocks, AddedAt, EmptyAdded, EmptyHolding, CreateStatus, Joins, Now, Spare;
      ghost var before := Now();
      HoldingsAre();
      s := CreateStatus(config.name, config.dimensionality, config.metric, config.name in collections);
      if s.Error? {
        return;
      }
      NewName(config);
      var tag := ReserveTag();
      var c := Fresh(config, tag);
      Register(c);
      Created(before, config, HoldingOf(c), Now());
    }

    lemma NewName(config: Config)
      requires CreateStatus(config.name, config.dimensionality, config.metric, config.name in collections).Ok?
      ensures 1 <= config.dimensionality <= 65536 && config.name !in collections
    {
    }

    /** An empty collection of this engine. */
    method Fresh(config: Config, tag: Tag) returns (c: Collection)
      requires Valid() && Spare(tag) && 1 <= config.dimensionality <= 65536 && config.name !in collections
      ensures Valid() && Now() == old(Now()) && Joins(c) && c.config == config && EmptyHolding(config, HoldingOf(c))
    {
      hide Valid, Collection.Valid, Collection.Stored, MemoryAllocator.Valid, Collection.Sound, Collection.Seeded, Now,
        TagBlocks;
      Parts();
      assert forall o | o in Repr() :: allocated(o);
      label Before:
      c := new Collection(config, allocator, tag, metrics(config.metric), shuffles);
      Unaffected@Before();
      c.Opened();
    }

    /** After the release of every block of a tag that no collection here has, the engine is in order. */
    lemma Resumes(tag: Tag, past: Snapshot)
      requires allocator.Valid() && Seeded() && Tagged(collections) && Unshared(Indexes())
      requires forall m | m in collections :: collections[m].tag < nextTag && collections[m].tag != tag
      requires forall m | m in collections :: StoodAs(collections[m], m, past)
      requires forall o | o in past.live && past.live[o].tag != tag :: Owned(past.live[o].tag)
      requires ForeignBlocks(allocator.live, allocator.memory, tag) == ForeignBlocks(past.live, past.memory, tag)
      requires TagBlocks(allocator.live, tag) == {}
      ensures Valid() && Undisturbed(past.held, Now())
    {
      hide HoldingOf, MemoryAllocator.Valid, ForeignBlocks, StoodAs, Registered, Unshared, Seeded, Untouched, Tagged;
      forall m | m in collections
        ensures Registered(m) && m in past.held && m in Now() && Untouched(past.held[m], Now()[m])
      {
        StandsOn(m, tag, past);
      }
      forall o | o in allocator.live ensures Owned(allocator.live[o].tag) {
        assert o !in TagBlocks(allocator.live, tag);
        ForeignSame(past.live, past.memory, allocator.live, allocator.memory, tag, o);
      }
    }

    /** Deletes a collection; `fails` is the answer of the deletion hook. */
    method DeleteCollection(name: Bytes, fails: bool) returns (s: Status)
      requires Valid()
      modifies this, allocator
      ensures Valid()
      ensures DeleteAt(old(Now()), old(allocator.live), name, fails, old(TagOf(name)), s, Now(), allocator.live)
    {
      hide Valid, HoldingOf, MemoryAllocator.Valid, OthersStood, Unshared, Seeded, Tagged, Undisturbed, Registered,
        Objects, Rest;
      if name !in collections {
        return Error(NotFound);
      }
      if fails {
        return Error(DeletionFailed);
      }
      Splits(name);
      Parts();
      Withdraw(name, Taken(), Rest(name));
      s := Ok;
    }

    /** Releases every block of a collection and takes it out of the registry. */
    method Withdraw(name: Bytes, ghost past: Snapshot, ghost rest: set<object>)
      requires name in collections && OthersStood(name, past, rest) && past.indexes == Indexes()
      requires past.live == allocator.live && past.memory == allocator.memory && allocator !in rest
      requires allocator.Valid() && Seeded() && Tagged(collections) && Unshared(past.indexes)
      modifies this`collections, allocator
      ensures Valid() && collections == old(collections) - {name} && Undisturbed(past.held, Now())
      ensures allocator.live == Allocator.Without(past.live, old(collections)[name].tag)
    {
      hide Valid, HoldingOf, MemoryAllocator.Valid, StoodAs, Unshared, Seeded, Undisturbed, ForeignBlocks, TagBlocks,
        Indexes, Now, Owned, Tagged;
      var tag := collections[name].tag;
      ghost var before := collections;
      IndexesAre();
      OwnersAre();
      allocator.ReleaseAll(tag);
      assert OthersStood(name, past, rest);
      label Swept:
      collections := collections - {name};
      forall m | m in collections ensures StoodAs(collections[m], m, past) {
        assert old@Swept(StoodAs(collections[m], m, past));
        NoIndexObject(collections[m].index);
      }
      ForeignSwept(past.live, past.memory, tag);
      Leaves(name, before, past);
    }

    /** After one collection gave back its blocks and left, the engine is in order. */
    lemma Leaves(name: Bytes, before: map<Bytes, Collection>, past: Snapshot)
      requires name in before && collections == before - {name} && allocator.Valid() && Seeded() && Tagged(before)
      requires past.indexes.Keys == before.Keys && forall m | m in before :: past.indexes[m] == before[m].index
      requires Unshared(past.indexes) && forall m | m in before :: before[m].tag < nextTag
      requires forall m | m in collections :: StoodAs(collections[m], m, past)
      requires forall o | o in past.live :: exists n :: n in before && before[n].tag == past.live[o].tag
      requires var tag := before[name].tag;
        && ForeignBlocks(allocator.live, allocator.memory, tag) == ForeignBlocks(past.live, past.memory, tag)
        && TagBlocks(allocator.live, tag) == {}
      ensures Valid() && Undisturbed(past.held, Now())
    {
      hide StoodAs, MemoryAllocator.Valid, Seeded, ForeignBlocks, TagBlocks, Unshared, Owned, Now, Valid, Undisturbed,
        Tagged;
      var tag := before[name].tag;
      assert Indexes() == past.indexes - {name};
      OneDropped(past.indexes, name);
      StillOwned(tag, before);
      StillTagged(before, name);
      Resumes(tag, past);
    }

    function Tags(): set<Tag>
      reads this
    {
      set name | name in collections :: collections[name].tag
    }

    /** Every live byte belongs to a registered collection: the allocator's total is the sum of theirs. */
    lemma Accounted()
      requires Valid()
      ensures allocator.totalAllocatedBytes == SumOverTags(allocator.live, Tags())
    {
      hide Registered, Unshared, Tagged, Seeded, TiledBy, Sum, SumOverTags;
      forall o | o in allocator.live ensures allocator.live[o].tag in Tags() {
        assert Owned(allocator.live[o].tag);
      }
      TotalIsSumOfTags(allocator.live, Tags());
    }

    /** Once every collection is deleted the arena is one free span again. */
    lemma EmptyAgain()
      requires Valid() && collections == map[]
      ensures allocator.live == map[] && allocator.totalAllocatedBytes == 0 && allocator.liveBlockCount == 0
      ensures allocator.freeByOffset == if allocator.capacity > 0 then [Span(0, allocator.capacity)] else []
    {
      assert forall o | o in allocator.live :: Owned(allocator.live[o].tag);
      assert allocator.live == map[];
      hide Registered, Unshared, Tagged, Seeded;
      WholeArena(allocator.capacity, allocator.freeByOffset);
    }

    /** Loads a snapshot and enters the collection under its stored name; a taken name drops it again. */
    method LoadCollection(image: Bytes, mapBase: int) returns (r: Result<Collection>)
      requires Valid() && (mapBase >= allocator.capacity || mapBase + |image| <= 0)
      modifies this, allocator
      ensures Valid() && LoadAt(old(Now()), Decode(image), metrics, shuffles, r, Now())
      ensures r.Success? ==> r.value.config.name in collections && collections[r.value.config.name] == r.value
    {
      hide Valid, HoldingOf, TagBlocks, Undisturbed, Fits, MemoryAllocator.Valid, Unshared, Decode, LegalIndex, Repr,
        LoadedHolding;
      var tag := ReserveTag();
      r := Fetch(image, mapBase, tag);
      if r.Failure? {
        return;
      }
      var c := r.value;
      if c.config.name in collections {
        Discard(tag);
        return Failure(NameConflict);
      }
      Register(c);
    }

    /** Loads a snapshot into a new collection under a reserved tag. */
    method Fetch(image: Bytes, mapBase: int, tag: Tag) returns (r: Result<Collection>)
      requires Valid() && Spare(tag) && (mapBase >= allocator.capacity || mapBase + |image| <= 0)
      ensures Valid() && Now() == old(Now()) && Fetched(Decode(image), r)
    {
      hide Valid, Collection.Now, TagBlocks, Collection.Valid, MemoryAllocator.Valid, Unshared, Decode,
        LegalIndex, RebuiltIndex, Collection.Stored, Collection.Sound, Collection.Seeded, RebuiltState, Shuffled,
        StateOf, KindOf;
      Parts();
      assert forall o | o in Repr() :: allocated(o);
      label Before:
      r := Load(image, mapBase, allocator, tag, metrics, shuffles);
      Unaffected@Before();
      if r.Success? {
        r.value.NowParts();
        ghost var l := Decode(image).value;
        RebuiltStates(r.value.index, l, metrics(l.config.metric), shuffles);
      }
    }

    /** The outcome of loading: the error of decoding, or a collection that can be entered unless its name is taken. */
    ghost predicate Fetched(decoded: Result<Loaded>, r: Result<Collection>)
      reads this, collections.Values, allocator
      reads if r.Success? then {r.value, r.value.allocator} + Objects(r.value.index) else {}
    {
      match r
      case Failure(category) => decoded == Failure(category)
      case Success(c) =>
        && decoded.Success? && c.config == decoded.value.config && (c.config.name in collections || Joins(c))
        && LoadedHolding(decoded.value, metrics, shuffles, HoldingOf(c))
    }

    /** Releases what a dropped collection owns, which is nothing. */
    method Discard(tag: Tag)
      requires Valid() && Spare(tag)
      modifies allocator
      ensures Valid() && Now().Keys == old(Now()).Keys && Undisturbed(old(Now()), Now())
    {
      hide Valid, HoldingOf, MemoryAllocator.Valid, StoodAs, Unshared, Seeded, Undisturbed, ForeignBlocks, TagBlocks,
        Registered;
      Parts();
      ghost var past := Taken();
      forall m | m in collections ensures StoodAs(collections[m], m, past) {
        StandsNow(m);
      }
      TagsBelow();
      allocator.ReleaseAll(tag);
      forall m | m in collections ensures StoodAs(collections[m], m, past) {
        assert old(collections[m].tag) < nextTag && unchanged(collections[m]);
        NoIndexObject(collections[m].index);
      }
      ForeignSwept(past.live, past.memory, tag);
      Resumes(tag, past);
    }

    // -------------------------------------------------------------- operations through a handle

    function TagOf(name: Bytes): Tag
      reads this
    {
      if name in collections then collections[name].tag else 0
    }

    lemma StillFits(name: Bytes)
      requires name in collections && Listed(name) && collections[name].Valid()
      ensures Fits(collections[name], name) && HoldingOf(collections[name]).coherent
    {
      hide Collection.Sound, Holds, Collection.Stored;
    }

    /** The same for a collection whose index still agrees with its records. */
    lemma ReturnsCoherent(name: Bytes, past: Snapshot, rest: set<object>)
      requires name in collections && Listed(name) && WasAs(name, past) && OthersStood(name, past, rest)
      requires Seeded() && Tagged(collections) && Unshared(past.indexes[name := collections[name].index])
      requires collections[name].Valid() && collections[name].Now().foreign == past.held[name].state.foreign
      ensures Valid() && OnlyChanged(name, past.held, Now()) && name in Now()
      ensures Now()[name].coherent && Now()[name].state == collections[name].Now()
    {
      hide Fits, Registered, OthersStood, Collection.Now, Collection.Valid, Tagged, Unshared, Seeded, Valid, Now,
        OnlyChanged, WasAs, Listed;
      StillFits(name);
      Returns(name, past, rest);
    }

    lemma NothingChanged(name: Bytes)
      ensures OnlyChanged(name, Now(), Now())
    {
      hide HoldingOf;
    }

    /** Looks a collection up and inserts one record into it. */
    method Insert(name: Bytes, id: RecordId, vec: Vector, meta: Option<Metadata>, level: nat) returns (s: Status)
      requires Valid() && Coherent(name)
      modifies Repr()
      ensures Valid() && InsertAt(old(Now()), name, id, vec, meta, level, metrics, allocator.capacity, s, Now())
    {
      hide Valid, Collection.Valid, InsertStep, Collection.Now, OthersStood, WasAs, Tagged, Seeded, Unshared, Fits,
        Rest, OnlyChanged;
      if name !in collections {
        NothingChanged(name);
        return Error(NotFound);
      }
      Splits(name);
      var c := collections[name];
      ghost var past, rest := Taken(), Rest(name);
      s := c.Insert(id, vec, meta, level);
      assert OthersStood(name, past, rest) && past.indexes[name := c.index] == past.indexes;
      InsertForeign(past.held[name].state, id, vec, meta, level, c.Dim(), c.metric, allocator.capacity, s, c.Now());
      ReturnsCoherent(name, past, rest);
    }

    /** Looks a collection up and inserts a batch into it. */
    method InsertBatch(name: Bytes, inputs: seq<Record>, levels: nat -> nat) returns (s: Status)
      requires Valid() && Coherent(name)
      modifies Repr()
      ensures Valid()
      ensures BatchAt(old(Now()), name, inputs, levels, TagOf(name), metrics, allocator.capacity, s, Now())
    {
      hide Valid, Collection.Valid, BatchStep, Collection.Now, OthersStood, WasAs, Tagged, Seeded, Unshared, Fits,
        Rest, OnlyChanged, BatchAt;
      if name !in collections {
        NothingChanged(name);
        NotBatched(Now(), name, inputs, levels, TagOf(name), metrics, allocator.capacity);
        return Error(NotFound);
      }
      Splits(name);
      var c := collections[name];
      ghost var past, rest := Taken(), Rest(name);
      s := c.InsertBatch(inputs, levels);
      assert OthersStood(name, past, rest) && past.indexes[name := c.index] == past.indexes;
      BatchForeign(past.held[name].state, inputs, levels, c.tag, c.Dim(), c.metric, allocator.capacity, s, c.Now());
      ReturnsCoherent(name, past, rest);
      Batched(past.held, name, inputs, levels, c.tag, metrics, allocator.capacity, s, Now());
    }

    /** Looks a collection up and removes one record from it. */
    method Remove(name: Bytes, id: RecordId) returns (s: Status)
      requires Valid() && Coherent(name)
      modifies Repr()
      ensures Valid() && RemoveAt(old(Now()), name, id, s, Now())
    {
      hide Valid, Collection.Valid, RemoveStep, Collection.Now, OthersStood, WasAs, Tagged, Seeded, Unshared, Fits,
        Rest, OnlyChanged;
      if name !in collections {
        NothingChanged(name);
        return Error(NotFound);
      }
      Splits(name);
      var c := collections[name];
      ghost var past, rest := Taken(), Rest(name);
      s := c.Remove(id);
      assert OthersStood(name, past, rest) && past.indexes[name := c.index] == past.indexes;
      RemoveForeign(past.held[name].state, id, s, c.Now());
      ReturnsCoherent(name, past, rest);
    }

    /** Looks a collection up and queries it. */
    method Query(name: Bytes, q: Vector, k: nat, efSearch: nat, nprobe: nat) returns (r: Result<seq<Candidate>>)
      requires Valid() && Coherent(name)
      modifies Repr()
      ensures Valid()
      ensures QueryAt(old(Now()), name, q, k, efSearch, nprobe, metrics, old(Exact(name, q, k, efSearch, nprobe)), r,
                      Now())
    {
      hide Valid, Collection.Valid, QueryStep, Collection.Now, OthersStood, WasAs, Tagged, Seeded, Unshared, Fits,
        Rest, OnlyChanged, Collection.Exact, QueryAt;
      ghost var exact := Exact(name, q, k, efSearch, nprobe);
      if name !in collections {
        NothingChanged(name);
        NotQueried(Now(), name, q, k, efSearch, nprobe, metrics, exact);
        return Failure(NotFound);
      }
      Splits(name);
      var c := collections[name];
      ghost var past, rest := Taken(), Rest(name);
      r := c.Query(q, k, efSearch, nprobe);
      assert OthersStood(name, past, rest) && past.indexes[name := c.index] == past.indexes;
      QueryForeign(past.held[name].state, q, k, efSearch, nprobe, c.Dim(), c.metric, exact, r, c.Now());
      ReturnsCoherent(name, past, rest);
      Queried(past.held, name, q, k, efSearch, nprobe, metrics, exact, r, Now());
    }

    /** The settings under which a query through a handle is exact. */
    ghost predicate Exact(name: Bytes, q: Vector, k: nat, efSearch: nat, nprobe: nat)
      reads this, collections.Values
      reads set c | c in collections.Values :: c.allocator
      reads set c, o | c in collections.Values && o in Objects(c.index) :: o
    {
      name in collections && collections[name].Exact(q, k, efSearch, nprobe)
    }

    /** Looks a collection up and builds an index over it, coherent or not. */
    method BuildIndex(name: Bytes, indexType: Byte, params: IndexParams, levels: nat -> nat) returns (s: Status)
      requires Valid()
      modifies Repr()
      ensures Valid() && BuildAt(old(Now()), name, indexType, params, levels, metrics, shuffles, s, Now())
    {
      hide Valid, Collection.Valid, BuildStep, Collection.Now, OthersStood, WasAs, Tagged, Seeded, Unshared, Rest,
        OnlyChanged, Collection.Sound, Collection.Seeded;
      if name !in collections {
        NothingChanged(name);
        return Error(NotFound);
      }
      Splits(name);
      IndexesKnown();
      var c := collections[name];
      ghost var past, rest, known := Taken(), Rest(name), Repr();
      s := c.BuildIndex(indexType, params, levels);
      assert OthersStood(name, past, rest);
      OneReplaced(past.indexes, name, c.index, known);
      BuildForeign(past.held[name].state, indexType, params, levels, c.Dim(), c.metric, c.shuffles, s, c.Now());
      Returns(name, past, rest);
    }
  }

  /** A new index, or a replaced one, made of new objects or none. */
  lemma OneReplaced(indexes: map<Bytes, Index>, name: Bytes, index: Index, known: set<object>)
    requires Unshared(indexes) && forall m | m in indexes :: Objects(indexes[m]) <= known
    requires (name in indexes && index == indexes[name]) || Objects(index) !! known
    ensures Unshared(indexes[name := index])
  {
    hide Objects;
    forall m | m in indexes && m != name ensures Objects(indexes[m]) !! Objects(index) {
    }
  }

  lemma WholeArena(capacity: nat, free: seq<Span>)
    requires TiledBy(capacity, free, map[])
    ensures free == if capacity > 0 then [Span(0, capacity)] else []
  {
    var whole := if capacity > 0 then [Span(0, capacity)] else [];
    forall x | 0 <= x < capacity ensures IsFree(whole, x) {
      assert InSpan(whole[0], x);
    }
    FreeListDetermined(capacity, map[], free, whole);
  }

  lemma OneTagged(collections: map<Bytes, Collection>, name: Bytes, c: Collection)
    requires Tagged(collections) && forall m | m in collections && m != name :: collections[m].tag != c.tag
    ensures Tagged(collections[name := c])
  {
  }

  lemma StillTagged(collections: map<Bytes, Collection>, name: Bytes)
    requires Tagged(collections) && name in collections
    ensures Tagged(collections - {name})
    ensures forall m | m in collections && m != name :: collections[m].tag != collections[name].tag
  {
  }

  lemma OneDropped(indexes: map<Bytes, Index>, name: Bytes)
    requires Unshared(indexes)
    ensures Unshared(indexes - {name})
  {
    hide Objects;
  }

  lemma InsertForeign(a: Collections.State, id: RecordId, vec: Vector, meta: Option<Metadata>, level: nat, dim: nat,
                      metric: Metric, capacity: nat, s: Status, b: Collections.State)
    requires InsertStep(a, id, vec, meta, level, dim, metric, capacity, s, b)
    ensures b.foreign == a.foreign
  {
  }

  lemma BatchForeign(a: Collections.State, inputs: seq<Record>, levels: nat -> nat, tag: Tag, dim: nat, metric: Metric,
                     capacity: nat, s: Status, b: Collections.State)
    requires BatchStep(a, inputs, levels, tag, dim, metric, capacity, s, b)
    ensures b.foreign == a.foreign
  {
  }

  lemma BuildForeign(a: Collections.State, indexType: Byte, params: IndexParams, levels: nat -> nat, dim: nat,
                     metric: Metric, shuffles: nat -> IvfModel.Shuffle, s: Status, b: Collections.State)
    requires BuildStep(a, indexType, params, levels, dim, metric, shuffles, s, b)
    ensures b.foreign == a.foreign
  {
  }

  lemma QueryForeign(a: Collections.State, q: Vector, k: nat, efSearch: nat, nprobe: nat, dim: nat, metric: Metric,
                     exact: bool, r: Result<seq<Candidate>>, b: Collections.State)
    requires QueryStep(a, q, k, efSearch, nprobe, dim, metric, exact, r, b)
    ensures b.foreign == a.foreign
  {
  }

  lemma NotBatched(a: map<Bytes, Holding>, name: Bytes, inputs: seq<Record>, levels: nat -> nat, tag: Tag,
                   metrics: Byte -> Metric, capacity: nat)
    requires name !in a && OnlyChanged(name, a, a)
    ensures BatchAt(a, name, inputs, levels, tag, metrics, capacity, Error(NotFound), a)
  {
    hide OnlyChanged;
  }

  lemma Batched(a: map<Bytes, Holding>, name: Bytes, inputs: seq<Record>, levels: nat -> nat, tag: Tag,
                metrics: Byte -> Metric, capacity: nat, s: Status, b: map<Bytes, Holding>)
    requires OnlyChanged(name, a, b) && name in a && name in b && b[name].coherent
    requires BatchStep(a[name].state, inputs, levels, tag, a[name].config.dimensionality,
                       metrics(a[name].config.metric), capacity, s, b[name].state)
    ensures BatchAt(a, name, inputs, levels, tag, metrics, capacity, s, b)
  {
    hide OnlyChanged, BatchStep;
  }

  lemma NotQueried(a: map<Bytes, Holding>, name: Bytes, q: Vector, k: nat, efSearch: nat, nprobe: nat,
                   metrics: Byte -> Metric, exact: bool)
    requires name !in a && OnlyChanged(name, a, a)
    ensures QueryAt(a, name, q, k, efSearch, nprobe, metrics, exact, Failure(NotFound), a)
  {
    hide OnlyChanged;
  }

  lemma Queried(a: map<Bytes, Holding>, name: Bytes, q: Vector, k: nat, efSearch: nat, nprobe: nat,
                metrics: Byte -> Metric, exact: bool, r: Result<seq<Candidate>>, b: map<Bytes, Holding>)
    requires OnlyChanged(name, a, b) && name in a && name in b && b[name].coherent
    requires QueryStep(a[name].state, q, k, efSearch, nprobe, a[name].config.dimensionality,
                       metrics(a[name].config.metric), exact, r, b[name].state)
    ensures QueryAt(a, name, q, k, efSearch, nprobe, metrics, exact, r, b)
  {
    hide OnlyChanged, QueryStep;
  }

  lemma RemoveForeign(a: Collections.State, id: RecordId, s: Status, b: Collections.State)
    requires RemoveStep(a, id, s, b)
    ensures b.foreign == a.foreign
  {
  }
}
