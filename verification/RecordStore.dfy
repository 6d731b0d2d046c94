/** Where record vectors live: allocator blocks, or the mapping of a loaded snapshot. */
module RecordStore {
  import opened Ordering
  import opened Vectors
  import opened Errors
  import opened Arena
  import opened Allocator
  import opened SnapshotLayout
  import opened SnapshotImage

  datatype RecordSlot = RecordSlot(block: Block, meta: Option<Metadata>)

  /** What a block pointer can be read through: the arena cells, or a mapping outside the arena. */
  datatype Space = Space(capacity: nat, memory: seq<Float32>, mapBase: int, mapping: Bytes)

  ghost predicate GoodSpace(s: Space) {
    && |s.memory| == s.capacity / 4 && s.capacity % ALIGNMENT == 0
    && (s.mapBase >= s.capacity || s.mapBase + |s.mapping| <= 0)
  }

  predicate InArena(s: Space, block: Block) { block.data.At? && 0 <= block.data.displacement < s.capacity }

  /** The components a block points to. */
  function ReadBlock(s: Space, block: Block, dim: nat): Vector {
    if block.data.Null? then []
    else
      var d := block.data.displacement;
      if 0 <= d < s.capacity then
        (if d / 4 + dim <= |s.memory| then s.memory[d / 4..d / 4 + dim] else [])
      else
        (if 0 <= d - s.mapBase && d - s.mapBase + 4 * dim <= |s.mapping| then VectorAt(s.mapping[d - s.mapBase..], dim)
         else [])
  }

  /** What the collection stores. */
  function Contents(s: Space, records: map<RecordId, RecordSlot>, dim: nat): map<RecordId, Stored> {
    map id | id in records :: Stored(ReadBlock(s, records[id].block, dim), records[id].meta)
  }

  function WriteCells(memory: seq<Float32>, at: nat, vec: Vector): seq<Float32>
    requires at + |vec| <= |memory|
  {
    memory[..at] + vec + memory[at + |vec|..]
  }

  ghost predicate Wrote(before: seq<Float32>, at: nat, vec: Vector, after: seq<Float32>) {
    at + |vec| <= |before| && after == WriteCells(before, at, vec)
  }

  // ---------------------------------------------------------------- ownership

  /** The arena bytes one vector occupies. */
  function VectorFootprint(dim: nat): nat { if dim <= 65536 then Footprint(4 * dim) else 0 }

  /** The allocation record of one vector. */
  function VectorAlloc(dim: nat, tag: Tag): AllocRecord { AllocRecord(VectorFootprint(dim), 4 * dim, tag) }

  /** One more block, at the lowest fit. */
  ghost predicate TookLowest(capacity: nat, live: LiveMap, r: AllocRecord, o: nat, after: LiveMap) {
    LowestFit(capacity, live, r.rounded, o) && o !in live && after == live[o := r]
  }

  /** The offsets of the live blocks of a tag. */
  function TagBlocks(live: LiveMap, tag: Tag): set<nat> { set o | o in live && live[o].tag == tag }

  /** The arena offsets the records point to. */
  function Offsets(s: Space, records: map<RecordId, RecordSlot>): set<nat> {
    set id | id in records && InArena(s, records[id].block) :: records[id].block.data.displacement as nat
  }

  /** One record's share of the offsets. */
  lemma OffsetsSplit(s: Space, records: map<RecordId, RecordSlot>, id: RecordId)
    requires id in records
    requires InArena(s, records[id].block) ==>
      forall j | j in records && j != id :: records[j].block.data != records[id].block.data
    ensures if InArena(s, records[id].block) then
      var d := records[id].block.data.displacement;
      Offsets(s, records) == Offsets(s, records - {id}) + {d} && d !in Offsets(s, records - {id})
      else Offsets(s, records) == Offsets(s, records - {id})
  {
    var rest := records - {id};
    forall x: nat | x in Offsets(s, records)
      ensures x in Offsets(s, rest) || (InArena(s, records[id].block) && x == records[id].block.data.displacement)
    {
      var j :| j in records && InArena(s, records[j].block) && records[j].block.data.displacement == x;
      if j != id { assert j in rest && rest[j] == records[j]; }
    }
    forall x: nat | x in Offsets(s, rest) ensures x in Offsets(s, records) {
      var j :| j in rest && InArena(s, rest[j].block) && rest[j].block.data.displacement == x;
      assert j in records && records[j] == rest[j];
    }
  }

  ghost predicate GoodSlot(s: Space, dim: nat, block: Block) {
    && block.size == 4 * dim && block.data.At?
    && (!InArena(s, block) ==>
          s.mapBase <= block.data.displacement && block.data.displacement + 4 * dim <= s.mapBase + |s.mapping|)
  }

  /** The blocks of the tag are exactly those of the records, one each, and the staged ones. */
  ghost predicate Housed(s: Space, live: LiveMap, tag: Tag, dim: nat, records: map<RecordId, RecordSlot>,
                         staged: set<nat>) {
    && 1 <= dim <= 65536
    && (forall id | id in records :: id != [] && GoodSlot(s, dim, records[id].block))
    && (forall i, j | i in records && j in records && i != j && InArena(s, records[i].block) ::
          records[i].block.data != records[j].block.data)
    && TagBlocks(live, tag) == Offsets(s, records) + staged && Offsets(s, records) !! staged
    && (forall o | o in live && live[o].tag == tag :: live[o] == VectorAlloc(dim, tag))
  }

  /** What the tiling says about the live blocks alone. */
  ghost predicate BlocksLaidOut(capacity: nat, live: LiveMap) {
    && Disjoint(live)
    && forall o | o in live :: o % ALIGNMENT == 0 && live[o].rounded > 0 && o + live[o].rounded <= capacity
  }

  lemma TilingLaysOut(capacity: nat, free: seq<Span>, live: LiveMap)
    requires TiledBy(capacity, free, live)
    ensures BlocksLaidOut(capacity, live)
  {
  }

  // ---------------------------------------------------------------- reads survive writes elsewhere

  /** Distinct vector blocks occupy separate cells inside the arena. */
  lemma SeparateCells(capacity: nat, live: LiveMap, tag: Tag, dim: nat, o: nat, p: nat)
    requires BlocksLaidOut(capacity, live) && 1 <= dim <= 65536
    requires o in live && p in live && live[o] == VectorAlloc(dim, tag) && live[p] == VectorAlloc(dim, tag) && o != p
    ensures o / 4 + dim <= capacity / 4 && (o / 4 + dim <= p / 4 || p / 4 + dim <= o / 4)
  {
    FootprintCovers(4 * dim);
    assert o + live[o].rounded <= p || p + live[p].rounded <= o;
  }

  lemma CellsInside(capacity: nat, live: LiveMap, tag: Tag, dim: nat, o: nat)
    requires BlocksLaidOut(capacity, live) && 1 <= dim <= 65536 && o in live && live[o] == VectorAlloc(dim, tag)
    ensures o / 4 + dim <= capacity / 4 && 0 <= o < capacity
  {
    FootprintCovers(4 * dim);
  }

  lemma CellsElsewhere(memory: seq<Float32>, at: nat, vec: Vector, lo: nat, n: nat)
    requires at + |vec| <= |memory| && lo + n <= |memory| && (lo + n <= at || at + |vec| <= lo)
    ensures WriteCells(memory, at, vec)[lo..lo + n] == memory[lo..lo + n]
    ensures WriteCells(memory, at, vec)[at..at + |vec|] == vec
  {
  }

  /** Writing one vector block leaves every other vector of the tag, and every mapped one, as it was. */
  lemma WriteKeepsReads(s: Space, live: LiveMap, tag: Tag, dim: nat, o: nat, vec: Vector, block: Block)
    requires GoodSpace(s) && BlocksLaidOut(s.capacity, live) && 1 <= dim <= 65536 && |vec| == dim
    requires o in live && live[o] == VectorAlloc(dim, tag)
    requires GoodSlot(s, dim, block) && block.data != At(o)
    requires InArena(s, block) ==>
      block.data.displacement in live && live[block.data.displacement] == VectorAlloc(dim, tag)
    ensures o / 4 + dim <= |s.memory|
    ensures ReadBlock(s.(memory := WriteCells(s.memory, o / 4, vec)), block, dim) == ReadBlock(s, block, dim)
  {
    hide BlocksLaidOut;
    CellsInside(s.capacity, live, tag, dim, o);
    if InArena(s, block) {
      var p: nat := block.data.displacement;
      SeparateCells(s.capacity, live, tag, dim, o, p);
      SeparateCells(s.capacity, live, tag, dim, p, o);
      CellsElsewhere(s.memory, o / 4, vec, p / 4, dim);
    }
  }

  lemma WriteReadsBack(s: Space, live: LiveMap, tag: Tag, dim: nat, o: nat, vec: Vector)
    requires GoodSpace(s) && BlocksLaidOut(s.capacity, live) && 1 <= dim <= 65536 && |vec| == dim
    requires o in live && live[o] == VectorAlloc(dim, tag)
    ensures o / 4 + dim <= |s.memory|
    ensures ReadBlock(s.(memory := WriteCells(s.memory, o / 4, vec)), Block(At(o), 4 * dim), dim) == vec
  {
    CellsInside(s.capacity, live, tag, dim, o);
    CellsElsewhere(s.memory, o / 4, vec, 0, 0);
  }

  /** Writing a staged block changes no record. */
  lemma WriteKeepsContents(s: Space, live: LiveMap, tag: Tag, dim: nat, records: map<RecordId, RecordSlot>,
                           staged: set<nat>,
                           o: nat, vec: Vector)
    requires GoodSpace(s) && BlocksLaidOut(s.capacity, live) && |vec| == dim
    requires Housed(s, live, tag, dim, records, staged) && o in staged
    ensures o / 4 + dim <= |s.memory|
    ensures var t := s.(memory := WriteCells(s.memory, o / 4, vec));
      GoodSpace(t) && Housed(t, live, tag, dim, records, staged)
      && Contents(t, records, dim) == Contents(s, records, dim)
  {
    StagedIsLive(s, live, tag, dim, records, staged, o);
    CellsInside(s.capacity, live, tag, dim, o);
    var t := s.(memory := WriteCells(s.memory, o / 4, vec));
    forall id | id in records ensures ReadBlock(t, records[id].block, dim) == ReadBlock(s, records[id].block, dim) {
      OwnedIsLive(s, live, tag, dim, records, staged, id);
      WriteKeepsReads(s, live, tag, dim, o, vec, records[id].block);
    }
    SameHouse(s, t, live, tag, dim, records, staged);
    hide ReadBlock, Housed;
  }

  lemma StagedIsLive(s: Space, live: LiveMap, tag: Tag, dim: nat, records: map<RecordId, RecordSlot>, staged: set<nat>,
                     o: nat)
    requires Housed(s, live, tag, dim, records, staged) && o in staged
    ensures o in live && live[o] == VectorAlloc(dim, tag)
    ensures forall id | id in records ::
      records[id].block.data.At? && (0 <= o < s.capacity ==> records[id].block.data != At(o))
  {
    assert o in TagBlocks(live, tag);
    forall id | id in records && 0 <= o < s.capacity ensures records[id].block.data != At(o) {
      assert records[id].block.data == At(o) ==> o in Offsets(s, records);
    }
  }

  lemma OwnedIsLive(s: Space, live: LiveMap, tag: Tag, dim: nat, records: map<RecordId, RecordSlot>, staged: set<nat>,
                    id: RecordId)
    requires Housed(s, live, tag, dim, records, staged) && id in records
    ensures GoodSlot(s, dim, records[id].block)
    ensures InArena(s, records[id].block) ==>
      && records[id].block.data.displacement in live
      && live[records[id].block.data.displacement] == VectorAlloc(dim, tag)
      && records[id].block.data.displacement !in staged
  {
    if InArena(s, records[id].block) {
      assert records[id].block.data.displacement in Offsets(s, records);
      assert records[id].block.data.displacement in TagBlocks(live, tag);
    }
  }

  /** Housing does not depend on what the cells hold. */
  lemma SameHouse(s: Space, t: Space, live: LiveMap, tag: Tag, dim: nat, records: map<RecordId, RecordSlot>,
                  staged: set<nat>)
    requires Housed(s, live, tag, dim, records, staged) && t == s.(memory := t.memory)
    ensures Housed(t, live, tag, dim, records, staged)
  {
    assert Offsets(t, records) == Offsets(s, records);
  }

  // ---------------------------------------------------------------- steps

  /** A granted block is staged. */
  lemma StageBlock(s: Space, live: LiveMap, tag: Tag, dim: nat, records: map<RecordId, RecordSlot>, staged: set<nat>,
                   o: nat)
    requires Housed(s, live, tag, dim, records, staged) && o !in live
    ensures Housed(s, live[o := VectorAlloc(dim, tag)], tag, dim, records, staged + {o}) && o !in staged
  {
    var live' := live[o := VectorAlloc(dim, tag)];
    assert o !in TagBlocks(live, tag);
    assert TagBlocks(live', tag) == TagBlocks(live, tag) + {o};
  }

  /** Giving a staged block back. */
  lemma UnstageBlock(s: Space, live: LiveMap, tag: Tag, dim: nat, records: map<RecordId, RecordSlot>, staged: set<nat>,
                     o: nat)
    requires Housed(s, live, tag, dim, records, staged) && o in staged
    ensures Housed(s, live - {o}, tag, dim, records, staged - {o})
  {
    assert TagBlocks(live - {o}, tag) == TagBlocks(live, tag) - {o};
  }

  /** What releasing a block leaves live. */
  function Released(live: LiveMap, block: Block): LiveMap {
    match block.data
    case At(d) => map o | o in live && o != d :: live[o]
    case Null => live
  }

  /** A removed record gives its block back; a mapped one has none. */
  lemma RemoveRecord(s: Space, live: LiveMap, tag: Tag, dim: nat, records: map<RecordId, RecordSlot>, staged: set<nat>,
                     id: RecordId)
    requires BlocksLaidOut(s.capacity, live) && Housed(s, live, tag, dim, records, staged) && id in records
    ensures Housed(s, Released(live, records[id].block), tag, dim, records - {id}, staged)
  {
    var d, rest, live' := records[id].block.data.displacement, records - {id}, Released(live, records[id].block);
    OwnedIsLive(s, live, tag, dim, records, staged, id);
    OffsetsSplit(s, records, id);
    if InArena(s, records[id].block) {
      assert Offsets(s, rest) == Offsets(s, records) - {d};
      assert TagBlocks(live', tag) == TagBlocks(live, tag) - {d};
    } else {
      assert d !in live;
      assert live' == live;
    }
  }

  /** A staged block becomes the block of a record that had none. */
  lemma CommitBlock(s: Space, live: LiveMap, tag: Tag, dim: nat, records: map<RecordId, RecordSlot>, staged: set<nat>,
                    id: RecordId, o: nat, meta: Option<Metadata>)
    requires BlocksLaidOut(s.capacity, live) && Housed(s, live, tag, dim, records, staged)
    requires o in staged && id !in records && id != []
    ensures Housed(s, live, tag, dim, records[id := RecordSlot(Block(At(o), 4 * dim), meta)], staged - {o})
  {
    StagedIsLive(s, live, tag, dim, records, staged, o);
    CellsInside(s.capacity, live, tag, dim, o);
    var more := records[id := RecordSlot(Block(At(o), 4 * dim), meta)];
    assert more - {id} == records;
    OffsetsSplit(s, more, id);
  }

  // ---------------------------------------------------------------- the blocks of other tags

  /** A live block with the cells it covers. */
  datatype Held = Held(rec: AllocRecord, cells: seq<Float32>)

  function CellsOf(memory: seq<Float32>, o: nat, size: nat): seq<Float32> {
    if o / 4 + size / 4 <= |memory| then memory[o / 4..o / 4 + size / 4] else []
  }

  /** Everything other tags hold in the arena. */
  function ForeignBlocks(live: LiveMap, memory: seq<Float32>, tag: Tag): map<nat, Held> {
    map o | o in live && live[o].tag != tag :: Held(live[o], CellsOf(memory, o, live[o].rounded))
  }

  lemma ForeignExtend(live: LiveMap, memory: seq<Float32>, tag: Tag, o: nat, r: AllocRecord)
    requires o !in live && r.tag == tag
    ensures ForeignBlocks(live[o := r], memory, tag) == ForeignBlocks(live, memory, tag)
  {
    hide CellsOf;
  }

  lemma ForeignRelease(live: LiveMap, memory: seq<Float32>, tag: Tag, block: Block)
    requires block.data.At? && block.data.displacement in live ==> live[block.data.displacement].tag == tag
    ensures ForeignBlocks(Released(live, block), memory, tag) == ForeignBlocks(live, memory, tag)
  {
    hide CellsOf;
  }

  /** Releasing the block of a record, or a staged one, touches no other tag. */
  lemma ForeignOwned(s: Space, live: LiveMap, tag: Tag, dim: nat, records: map<RecordId, RecordSlot>, staged: set<nat>,
                     id: RecordId)
    requires BlocksLaidOut(s.capacity, live) && Housed(s, live, tag, dim, records, staged) && id in records
    ensures ForeignBlocks(Released(live, records[id].block), s.memory, tag) == ForeignBlocks(live, s.memory, tag)
  {
    OwnedIsLive(s, live, tag, dim, records, staged, id);
    hide Released, ForeignBlocks;
    ForeignRelease(live, s.memory, tag, records[id].block);
  }

  /** Releasing every block of a tag touches no other tag. */
  lemma ForeignSwept(live: LiveMap, memory: seq<Float32>, tag: Tag)
    ensures ForeignBlocks(Without(live, tag), memory, tag) == ForeignBlocks(live, memory, tag)
    ensures TagBlocks(Without(live, tag), tag) == {}
  {
    hide CellsOf;
  }

  /** Writing a vector block leaves the cells of other blocks as they were. */
  lemma ForeignCells(capacity: nat, live: LiveMap, memory: seq<Float32>, tag: Tag, dim: nat, o: nat, vec: Vector,
                     p: nat)
    requires BlocksLaidOut(capacity, live) && |memory| == capacity / 4 && 1 <= dim <= 65536 && |vec| == dim
    requires o in live && live[o] == VectorAlloc(dim, tag) && p in live && live[p].tag != tag
    ensures o / 4 + dim <= |memory|
    ensures CellsOf(WriteCells(memory, o / 4, vec), p, live[p].rounded) == CellsOf(memory, p, live[p].rounded)
  {
    CellsInside(capacity, live, tag, dim, o);
    FootprintCovers(4 * dim);
    assert o + live[o].rounded <= p || p + live[p].rounded <= o;
    var lo, n := p / 4, live[p].rounded / 4;
    assert lo + n <= o / 4 || o / 4 + dim <= lo;
    if lo + n <= |memory| { CellsElsewhere(memory, o / 4, vec, lo, n); }
  }

  lemma ForeignWrite(capacity: nat, live: LiveMap, memory: seq<Float32>, tag: Tag, dim: nat, o: nat, vec: Vector)
    requires BlocksLaidOut(capacity, live) && |memory| == capacity / 4 && 1 <= dim <= 65536 && |vec| == dim
    requires o in live && live[o] == VectorAlloc(dim, tag)
    ensures o / 4 + dim <= |memory|
    ensures ForeignBlocks(live, WriteCells(memory, o / 4, vec), tag) == ForeignBlocks(live, memory, tag)
  {
    CellsInside(capacity, live, tag, dim, o);
    forall p | p in live && live[p].tag != tag
      ensures CellsOf(WriteCells(memory, o / 4, vec), p, live[p].rounded) == CellsOf(memory, p, live[p].rounded)
    {
      ForeignCells(capacity, live, memory, tag, dim, o, vec, p);
    }
    hide CellsOf, WriteCells, BlocksLaidOut;
  }

  /** What other tags hold is theirs in the new arena too, block by block and cell by cell. */
  lemma ForeignSame(live: LiveMap, memory: seq<Float32>, after: LiveMap, now: seq<Float32>, other: Tag, o: nat)
    requires ForeignBlocks(after, now, other) == ForeignBlocks(live, memory, other)
    ensures (o in after && after[o].tag != other) <==> (o in live && live[o].tag != other)
    ensures o in live && live[o].tag != other ==>
      after[o] == live[o] && CellsOf(now, o, live[o].rounded) == CellsOf(memory, o, live[o].rounded)
  {
    hide CellsOf;
    assert o in ForeignBlocks(live, memory, other) <==> o in ForeignBlocks(after, now, other);
    if o in live && live[o].tag != other {
      assert ForeignBlocks(after, now, other)[o] == ForeignBlocks(live, memory, other)[o];
    }
  }

  lemma Quarters(o: nat, size: nat, dim: nat, capacity: nat)
    requires o + size <= capacity && 4 * dim <= size
    ensures dim <= size / 4 && o / 4 + size / 4 <= capacity / 4
  {
  }

  /** Equal cells hold equal vectors. */
  lemma CellsRead(capacity: nat, live: LiveMap, tag: Tag, dim: nat, o: nat, memory: seq<Float32>, now: seq<Float32>)
    requires BlocksLaidOut(capacity, live) && 1 <= dim <= 65536 && |memory| == |now| == capacity / 4
    requires o in live && live[o] == VectorAlloc(dim, tag)
    requires CellsOf(now, o, live[o].rounded) == CellsOf(memory, o, live[o].rounded)
    ensures o / 4 + dim <= capacity / 4 && now[o / 4..o / 4 + dim] == memory[o / 4..o / 4 + dim]
  {
    FootprintCovers(4 * dim);
    var n := live[o].rounded / 4;
    Quarters(o, live[o].rounded, dim, capacity);
    hide BlocksLaidOut, Footprint, VectorFootprint;
    assert memory[o / 4..o / 4 + dim] == memory[o / 4..o / 4 + n][..dim];
    assert now[o / 4..o / 4 + dim] == now[o / 4..o / 4 + n][..dim];
  }

  /** A store survives whatever another tag does to the arena: same records, each with its block and its vector. */
  lemma HouseSurvives(s: Space, t: Space, live: LiveMap, after: LiveMap, tag: Tag, other: Tag, dim: nat,
                      records: map<RecordId, RecordSlot>)
    requires GoodSpace(s) && GoodSpace(t) && t == s.(memory := t.memory) && tag != other
    requires BlocksLaidOut(s.capacity, live) && Housed(s, live, tag, dim, records, {})
    requires ForeignBlocks(after, t.memory, other) == ForeignBlocks(live, s.memory, other)
    ensures Housed(t, after, tag, dim, records, {}) && Contents(t, records, dim) == Contents(s, records, dim)
  {
    hide ForeignBlocks, CellsOf, BlocksLaidOut, ReadBlock, GoodSpace, Housed;
    SameBlocks(live, s.memory, after, t.memory, tag, other);
    HouseMoves(s, t, live, after, tag, dim, records);
    forall id | id in records ensures ReadBlock(t, records[id].block, dim) == ReadBlock(s, records[id].block, dim) {
      BlockSurvives(s, t, live, after, tag, other, dim, records, id);
    }
  }

  /** The blocks of a tag are those they were. */
  lemma SameBlocks(live: LiveMap, memory: seq<Float32>, after: LiveMap, now: seq<Float32>, tag: Tag, other: Tag)
    requires tag != other && ForeignBlocks(after, now, other) == ForeignBlocks(live, memory, other)
    ensures forall o: nat | o in live || o in after ::
      ((o in after && after[o].tag == tag) <==> (o in live && live[o].tag == tag))
      && (o in live && live[o].tag == tag ==> after[o] == live[o])
  {
    hide ForeignBlocks, CellsOf;
    forall o: nat ensures (o in after && after[o].tag == tag) <==> (o in live && live[o].tag == tag)
      ensures o in live && live[o].tag == tag ==> after[o] == live[o]
    {
      ForeignSame(live, memory, after, now, other, o);
    }
  }

  /** A store does not depend on the cells, nor on the blocks of other tags. */
  lemma HouseMoves(s: Space, t: Space, live: LiveMap, after: LiveMap, tag: Tag, dim: nat,
                   records: map<RecordId, RecordSlot>)
    requires t == s.(memory := t.memory) && Housed(s, live, tag, dim, records, {})
    requires forall o: nat | o in live || o in after ::
      ((o in after && after[o].tag == tag) <==> (o in live && live[o].tag == tag))
      && (o in live && live[o].tag == tag ==> after[o] == live[o])
    ensures Housed(t, after, tag, dim, records, {})
  {
    assert TagBlocks(after, tag) == TagBlocks(live, tag);
    assert Offsets(t, records) == Offsets(s, records);
    hide TagBlocks, Offsets;
  }

  lemma BlockSurvives(s: Space, t: Space, live: LiveMap, after: LiveMap, tag: Tag, other: Tag, dim: nat,
                      records: map<RecordId, RecordSlot>, id: RecordId)
    requires GoodSpace(s) && GoodSpace(t) && t == s.(memory := t.memory) && tag != other && id in records
    requires BlocksLaidOut(s.capacity, live) && Housed(s, live, tag, dim, records, {})
    requires ForeignBlocks(after, t.memory, other) == ForeignBlocks(live, s.memory, other)
    ensures ReadBlock(t, records[id].block, dim) == ReadBlock(s, records[id].block, dim)
  {
    hide ForeignBlocks, CellsOf, BlocksLaidOut;
    OwnedIsLive(s, live, tag, dim, records, {}, id);
    if InArena(s, records[id].block) {
      var d: nat := records[id].block.data.displacement;
      ForeignSame(live, s.memory, after, t.memory, other, d);
      CellsRead(s.capacity, live, tag, dim, d, s.memory, t.memory);
    }
  }

  // ---------------------------------------------------------------- accounting

  lemma {:induction false} TagBytes(live: LiveMap, tag: Tag, each: nat)
    requires forall o | o in live && live[o].tag == tag :: live[o].requested == each
    ensures Sum(live, TagRequested(tag)) == Repeated(|TagBlocks(live, tag)|, each)
    decreases |live|
  {
    hide Sum, TagBlocks, Repeated;
    if live == map[] {
      NoTagBytes(tag, each);
    } else {
      var o :| o in live;
      var rest := live - {o};
      TagBytes(rest, tag, each);
      SumSplit(live, TagRequested(tag), o);
      TagBlocksSplit(live, tag, o);
      RepeatedMore(|TagBlocks(rest, tag)|, each);
    }
  }

  lemma NoTagBytes(tag: Tag, each: nat)
    ensures Sum(map[], TagRequested(tag)) == 0 == Repeated(|TagBlocks(map[], tag)|, each)
  {
    assert TagBlocks(map[], tag) == {};
  }

  lemma RepeatedMore(n: nat, each: nat)
    ensures Repeated(n + 1, each) == each + Repeated(n, each)
  {
  }

  lemma TagBlocksSplit(live: LiveMap, tag: Tag, o: nat)
    requires o in live
    ensures |TagBlocks(live, tag)| == |TagBlocks(live - {o}, tag)| + if live[o].tag == tag then 1 else 0
  {
    var rest := TagBlocks(live - {o}, tag);
    assert o !in rest;
    assert TagBlocks(live, tag) == if live[o].tag == tag then rest + {o} else rest;
  }

  function Repeated(n: nat, each: nat): nat { if n == 0 then 0 else each + Repeated(n - 1, each) }

  lemma {:induction false} RepeatedProduct(n: nat, each: nat)
    ensures Repeated(n, each) == n * each
  {
    if n > 0 {
      RepeatedProduct(n - 1, each);
      assert n * each == (n - 1) * each + each;
    }
  }

  lemma {:induction false} OffsetsCount(s: Space, records: map<RecordId, RecordSlot>)
    requires forall id | id in records :: InArena(s, records[id].block)
    requires forall i, j | i in records && j in records && i != j :: records[i].block.data != records[j].block.data
    ensures |Offsets(s, records)| == |records|
    decreases |records|
  {
    if records == map[] {
      assert Offsets(s, records) == {};
    } else {
      var id :| id in records;
      var rest, d: nat := records - {id}, records[id].block.data.displacement;
      OffsetsCount(s, rest);
      OffsetsSplit(s, records, id);
      assert records.Keys == rest.Keys + {id};
      assert |records| == |records.Keys| && |rest| == |rest.Keys|;
    }
  }

  /** An in-memory collection's tag accounts for exactly count * dimension * 4 bytes. */
  lemma TagHoldsRecords(s: Space, live: LiveMap, tag: Tag, dim: nat, records: map<RecordId, RecordSlot>)
    requires Housed(s, live, tag, dim, records, {}) && forall id | id in records :: InArena(s, records[id].block)
    ensures Sum(live, TagRequested(tag)) == |records| * (4 * dim)
  {
    TagBytes(live, tag, 4 * dim);
    RepeatedProduct(|TagBlocks(live, tag)|, 4 * dim);
    OffsetsCount(s, records);
    assert TagBlocks(live, tag) == Offsets(s, records);
  }

  /** The vector blocks of two records never overlap. */
  lemma RecordsDisjoint(s: Space, live: LiveMap, tag: Tag, dim: nat, records: map<RecordId, RecordSlot>,
                        staged: set<nat>,
                        i: RecordId, j: RecordId)
    requires BlocksLaidOut(s.capacity, live) && Housed(s, live, tag, dim, records, staged)
    requires i in records && j in records && i != j && InArena(s, records[i].block) && InArena(s, records[j].block)
    ensures var a, b := records[i].block.data.displacement, records[j].block.data.displacement;
      a + 4 * dim <= b || b + 4 * dim <= a
  {
    OwnedIsLive(s, live, tag, dim, records, staged, i);
    OwnedIsLive(s, live, tag, dim, records, staged, j);
    FootprintCovers(4 * dim);
  }

  lemma {:induction false} VectorAtLength(s: Bytes, dim: nat)
    requires 4 * dim <= |s|
    ensures |VectorAt(s, dim)| == dim
    decreases dim
  {
    if dim > 0 { VectorAtLength(s[4..], dim - 1); }
  }

  /** Every stored vector has the collection's dimensionality. */
  lemma StoredLengths(s: Space, live: LiveMap, tag: Tag, dim: nat, records: map<RecordId, RecordSlot>, staged: set<nat>)
    requires GoodSpace(s) && BlocksLaidOut(s.capacity, live) && Housed(s, live, tag, dim, records, staged)
    ensures forall id | id in Contents(s, records, dim) :: id != [] && |Contents(s, records, dim)[id].vector| == dim
  {
    forall id | id in records ensures |ReadBlock(s, records[id].block, dim)| == dim {
      OwnedIsLive(s, live, tag, dim, records, staged, id);
      var block := records[id].block;
      if InArena(s, block) {
        CellsInside(s.capacity, live, tag, dim, block.data.displacement);
      } else {
        VectorAtLength(s.mapping[block.data.displacement - s.mapBase..], dim);
      }
    }
  }

  lemma ContentsUpdate(s: Space, records: map<RecordId, RecordSlot>, dim: nat, id: RecordId, slot: RecordSlot)
    ensures Contents(s, records[id := slot], dim)
            == Contents(s, records, dim)[id := Stored(ReadBlock(s, slot.block, dim), slot.meta)]
    ensures Contents(s, records - {id}, dim) == Contents(s, records, dim) - {id}
  {
    hide ReadBlock;
  }

  lemma VectorsUpdate(contents: map<RecordId, Stored>, id: RecordId, r: Stored)
    ensures VectorsIn(contents[id := r]) == VectorsIn(contents)[id := r.vector]
    ensures VectorsIn(contents - {id}) == VectorsIn(contents) - {id}
    ensures VectorsIn(contents).Keys == contents.Keys
  {
  }

  // ---------------------------------------------------------------- batches

  /** Repeated single inserts. */
  function InsertAll(contents: map<RecordId, Stored>, inputs: seq<Record>): map<RecordId, Stored> {
    if inputs == [] then contents
    else
      var n := |inputs| - 1;
      InsertAll(contents, inputs[..n])[inputs[n].id := Stored(inputs[n].vector, inputs[n].meta)]
  }

  /** The last writer of an id wins. */
  lemma {:induction false} LastWriterWins(contents: map<RecordId, Stored>, inputs: seq<Record>, i: nat)
    requires i < |inputs| && forall j | i < j < |inputs| :: inputs[j].id != inputs[i].id
    ensures inputs[i].id in InsertAll(contents, inputs)
    ensures InsertAll(contents, inputs)[inputs[i].id] == Stored(inputs[i].vector, inputs[i].meta)
    decreases |inputs|
  {
    var n := |inputs| - 1;
    if i < n {
      LastWriterWins(contents, inputs[..n], i);
    }
  }

  /** An id that is not written keeps its record, or its absence. */
  lemma {:induction false} UnwrittenKeeps(contents: map<RecordId, Stored>, inputs: seq<Record>, id: RecordId)
    requires forall j | 0 <= j < |inputs| :: inputs[j].id != id
    ensures id in InsertAll(contents, inputs) <==> id in contents
    ensures id in contents ==> InsertAll(contents, inputs)[id] == contents[id]
    decreases |inputs|
  {
    if inputs != [] {
      UnwrittenKeeps(contents, inputs[..|inputs| - 1], id);
    }
  }

  /** The live set with some more vector blocks. */
  function Extended(live: LiveMap, offs: seq<nat>, r: AllocRecord): LiveMap {
    map o | o in live.Keys + Elements(offs) :: if o in offs then r else live[o]
  }

  lemma ExtendedSnoc(live: LiveMap, offs: seq<nat>, r: AllocRecord, o: nat)
    ensures Extended(live, offs + [o], r) == Extended(live, offs, r)[o := r]
    ensures Extended(live, [], r) == live
  {
  }

  lemma ExtendedTail(live: LiveMap, offs: seq<nat>, r: AllocRecord)
    requires offs != [] && Distinct(offs) && offs[0] !in live
    ensures Extended(live, offs, r) - {offs[0]} == Extended(live, offs[1..], r)
    ensures offs[0] !in offs[1..] && Elements(offs) == {offs[0]} + Elements(offs[1..])
  {
    HeadApart(offs);
    hide Distinct;
    assert forall o :: o in offs <==> o == offs[0] || o in offs[1..];
  }

  lemma HeadApart(offs: seq<nat>)
    requires offs != [] && Distinct(offs)
    ensures offs[0] !in offs[1..] && Elements(offs) == {offs[0]} + Elements(offs[1..])
  {
    assert offs == [offs[0]] + offs[1..];
  }

  /** The staged blocks and the vectors written to them. */
  ghost predicate StagedBlocks(s: Space, live: LiveMap, tag: Tag, dim: nat, blocks: seq<Block>, offs: seq<nat>,
                             inputs: seq<Record>) {
    && |blocks| == |offs| == |inputs| && Distinct(offs) && 1 <= dim <= 65536
    && forall i | 0 <= i < |blocks| ::
         blocks[i] == Block(At(offs[i]), 4 * dim) && offs[i] in live && live[offs[i]] == VectorAlloc(dim, tag)
         && ReadBlock(s, blocks[i], dim) == inputs[i].vector
  }

  /** Writing a fresh block leaves the staged ones as they were, and stages one more. */
  lemma StageWritten(s: Space, live: LiveMap, tag: Tag, dim: nat, blocks: seq<Block>, offs: seq<nat>,
                     inputs: seq<Record>,
                     o: nat, rec: Record)
    requires GoodSpace(s) && BlocksLaidOut(s.capacity, live) && |rec.vector| == dim
    requires StagedBlocks(s, live, tag, dim, blocks, offs, inputs)
    requires o in live && live[o] == VectorAlloc(dim, tag) && o !in offs
    ensures o / 4 + dim <= |s.memory|
    ensures var t := s.(memory := WriteCells(s.memory, o / 4, rec.vector));
      StagedBlocks(t, live, tag, dim, blocks + [Block(At(o), 4 * dim)], offs + [o], inputs + [rec])
  {
    WriteReadsBack(s, live, tag, dim, o, rec.vector);
    var t := s.(memory := WriteCells(s.memory, o / 4, rec.vector));
    forall i | 0 <= i < |blocks| ensures ReadBlock(t, blocks[i], dim) == inputs[i].vector {
      CellsInside(s.capacity, live, tag, dim, offs[i]);
      assert offs[i] in offs;
      WriteKeepsReads(s, live, tag, dim, o, rec.vector, blocks[i]);
    }
    hide ReadBlock;
  }

  // ---------------------------------------------------------------- room for a batch

  /** `n` blocks like `r`, each at the lowest fit of its turn, can be allocated one after another. */
  ghost predicate Room(capacity: nat, live: LiveMap, r: AllocRecord, n: nat)
    decreases n
  {
    n == 0 || exists o: nat :: RoomAfter(capacity, live, r, n, o)
  }

  ghost predicate RoomAfter(capacity: nat, live: LiveMap, r: AllocRecord, n: nat, o: nat)
    requires n > 0
    decreases n, 0
  {
    LowestFit(capacity, live, r.rounded, o) && Room(capacity, live[o := r], r, n - 1)
  }

  /** The first block has only one place to go. */
  lemma RoomStep(capacity: nat, live: LiveMap, r: AllocRecord, n: nat, o: nat)
    requires n > 0 && LowestFit(capacity, live, r.rounded, o)
    ensures Room(capacity, live, r, n) <==> Room(capacity, live[o := r], r, n - 1)
  {
    hide Fits, Room;
    if Room(capacity, live[o := r], r, n - 1) {
      assert RoomAfter(capacity, live, r, n, o);
      RoomIntro(capacity, live, r, n, o);
    }
    if Room(capacity, live, r, n) {
      var p := RoomElim(capacity, live, r, n);
      assert o <= p && p <= o;
    }
  }

  lemma RoomIntro(capacity: nat, live: LiveMap, r: AllocRecord, n: nat, o: nat)
    requires n > 0 && RoomAfter(capacity, live, r, n, o)
    ensures Room(capacity, live, r, n)
  {
  }

  lemma RoomElim(capacity: nat, live: LiveMap, r: AllocRecord, n: nat) returns (o: nat)
    requires n > 0 && Room(capacity, live, r, n)
    ensures RoomAfter(capacity, live, r, n, o)
  {
    o :| RoomAfter(capacity, live, r, n, o);
  }

  lemma NoRoom(capacity: nat, live: LiveMap, r: AllocRecord, n: nat)
    requires n > 0 && NoFit(capacity, live, r.rounded)
    ensures !Room(capacity, live, r, n)
  {
    hide Fits;
    if Room(capacity, live, r, n) {
      var o := RoomElim(capacity, live, r, n);
      assert false;
    }
  }
}
