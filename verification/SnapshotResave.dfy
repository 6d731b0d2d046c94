/** Saving a collection again after a load gives the same bytes exactly when the image is written as the encoder and
    the index serializer write. */
module SnapshotResave {
  import opened Ordering
  import opened Identifiers
  import opened Vectors
  import opened Errors
  import opened SnapshotFormat
  import opened SnapshotLayout
  import opened SnapshotImage
  import opened SnapshotRoundTrip
  import opened SnapshotSize
  import opened Arena
  import opened Allocator
  import opened RecordStore
  import opened Indexing
  import opened Collections
  import opened Persistence
  import opened SaveLoad
  import SnapshotChanges
  import HnswFormat
  import HnswCanonical
  import HnswPersist
  import HnswLegal
  import HnswResave
  import Ivf
  import IvfModel

  // ---------------------------------------------------------------- canonical images

  /** `n` directory entries as the encoder writes them: ids ascend, the entry at place i points at vector i, and its
      bytes are the encoding of what they say. */
  ghost predicate TidyEntries(s: Bytes, n: nat, count: nat, i: nat, above: Option<RecordId>)
    decreases n
  {
    n > 0 ==>
      match ReadRecord(s, count)
      case None => false
      case Some(p) =>
        && (above.Some? ==> IdLess(above.value, p.0.0)) && p.0.1.vectorIndex == i
        && s == RecordBytes(Record(p.0.0, [], p.0.1.meta), i) + p.1
        && TidyEntries(p.1, n - 1, count, i + 1, Some(p.0.0))
  }

  /** Flags and reserved bytes are zero, the vector region follows the directory at the next 64-byte boundary, the
      index region follows the vectors and ends the file, padding is zero, and the directory is tidy. */
  ghost predicate TidyLayout(s: Bytes)
    requires |s| >= HEADER_SIZE
  {
    var h := ReadHeader(s);
    && h.flags == 0 && h.reserved0 == 0 && h.reserved1 == 0 && HEADER_SIZE + h.nameLength <= |s|
    && TidyRegions(s, h) && TidyEntries(s[HEADER_SIZE + h.nameLength..], h.recordCount, h.recordCount, 0, None)
  }

  ghost predicate TidyRegions(s: Bytes, h: Header)
    requires HEADER_SIZE + h.nameLength <= |s|
  {
    match ReadDirectory(s[HEADER_SIZE + h.nameLength..], h.recordCount, h.recordCount, map[])
    case None => false
    case Some(dir) =>
      && |dir.1| <= |s| && var end := |s| - |dir.1|;
      && h.vectorOff == end + PadLength(end) && h.indexOff == h.vectorOff + h.vectorLen
      && |s| == h.indexOff + h.indexLen && forall i | end <= i < h.vectorOff :: s[i] == 0
  }

  /** The index region is one that the serializer writes. */
  ghost predicate TidyIndex(indexType: Byte, region: Bytes) {
    indexType == 1 ==>
      match HnswFormat.ReadRegion(region)
      case None => false
      case Some(read) => HnswResave.CanonicalRegion(read.0, read.1)
  }

  /** The layout is tidy, and so is the index region that ends the file. */
  ghost predicate Tidy(s: Bytes)
    requires |s| >= HEADER_SIZE
  {
    var h := ReadHeader(s);
    TidyLayout(s) && h.indexOff <= |s| && TidyIndex(h.indexType, s[h.indexOff..])
  }

  // ---------------------------------------------------------------- what the encoder writes is tidy

  lemma {:induction false} EntriesTidy(recs: seq<Record>, i: nat, count: nat, above: Option<RecordId>, rest: Bytes)
    requires (forall r | r in recs :: FitsRecord(r)) && i + |recs| <= count < TWO64
    requires forall j, k | 0 <= j < k < |recs| :: IdLess(recs[j].id, recs[k].id)
    requires above.Some? && recs != [] ==> IdLess(above.value, recs[0].id)
    ensures TidyEntries(DirectoryBytes(recs, i) + rest, |recs|, count, i, above)
    decreases |recs|
  {
    hide RecordBytes, ReadRecord, FitsRecord, IdLess;
    if recs != [] {
      var tail := DirectoryBytes(recs[1..], i + 1) + rest;
      Assoc(RecordBytes(recs[0], i), DirectoryBytes(recs[1..], i + 1), rest);
      assert recs[0] in recs;
      ReadRecordBack(recs[0], i, count, tail);
      WithoutVector(recs[0], i);
      EntriesTidy(recs[1..], i + 1, count, Some(recs[0].id), rest);
    }
  }

  /** A directory entry does not depend on the components. */
  lemma WithoutVector(rec: Record, i: nat)
    ensures RecordBytes(rec, i) == RecordBytes(Record(rec.id, [], rec.meta), i)
  {
  }

  lemma ImageIsTidy(d: SnapshotData)
    requires Storable(d)
    ensures |Image(d)| >= HEADER_SIZE && TidyLayout(Image(d))
  {
    hide Image, Storable, HeaderOk, Body, DirectoryBytes, VectorsBytes, ReadHeader, HeaderFor, ReadDirectory, SlotsOf,
      TidyEntries, FitsRecord, IdLess;
    var s, h, n := Image(d), HeaderFor(d), HEADER_SIZE + |d.config.name|;
    ImageHeader(d);
    ImageLaidOut(d);
    HeaderFields(d);
    ZeroFields(d);
    DirectoryDecodes(d, s, h);
    RecordsFit(d);
    Ascending(d);
    EntriesTidy(d.records, 0, |d.records|, None, s[n + |DirectoryOf(d)|..]);
    PaddingZero(d);
  }

  lemma Ascending(d: SnapshotData)
    requires Storable(d)
    ensures forall i, j | 0 <= i < j < |d.records| :: IdLess(d.records[i].id, d.records[j].id)
  {
    hide IdLess, FitsRecord, Body;
  }

  lemma ZeroFields(d: SnapshotData)
    requires Storable(d)
    ensures var h := HeaderFor(d); h.flags == 0 && h.reserved0 == 0 && h.reserved1 == 0
  {
    hide Storable, Body, CrcOf;
  }

  lemma PaddingZero(d: SnapshotData)
    requires Storable(d)
    ensures var end := HEADER_SIZE + |d.config.name| + |DirectoryOf(d)|;
      && VectorOff(d) == end + PadLength(end) <= |Image(d)|
      && forall i | end <= i < VectorOff(d) :: Image(d)[i] == 0
  {
    hide Image, Storable, DirectoryOf, VectorsBytes, HeaderFor, ReadHeader;
    ImageHeader(d);
    var s, b, m := Image(d), Body(d), |d.config.name| + |DirectoryOf(d)|;
    var pad := PadLength(HEADER_SIZE + m);
    assert s[HEADER_SIZE..] == b;
    assert b == (d.config.name + DirectoryOf(d)) + Padding(pad) + (VectorsBytes(d.records) + d.indexBlob);
    forall i | HEADER_SIZE + m <= i < HEADER_SIZE + m + pad ensures s[i] == 0 {
      assert s[i] == b[i - HEADER_SIZE];
    }
  }

  // ---------------------------------------------------------------- a tidy image is what the encoder writes

  /** The records a tidy directory lists, with given vectors. */
  lemma {:induction false} TidyParse(s: Bytes, n: nat, count: nat, i: nat, above: Option<RecordId>,
                                     acc: map<RecordId, Slot>, vec: nat -> Vector) returns (recs: seq<Record>)
    requires TidyEntries(s, n, count, i, above) && ReadDirectory(s, n, count, acc).Some?
    ensures |recs| == n && forall j | 0 <= j < n :: recs[j].vector == vec(i + j)
    ensures forall j, k | 0 <= j < k < n :: IdLess(recs[j].id, recs[k].id)
    ensures above.Some? ==> forall j | 0 <= j < n :: IdLess(above.value, recs[j].id)
    ensures ReadDirectory(s, n, count, acc).value.0 == SlotsOf(recs, i, acc)
    ensures s == DirectoryBytes(recs, i) + ReadDirectory(s, n, count, acc).value.1
    decreases n
  {
    hide RecordBytes, ReadRecord, IdLess, DirectoryBytes, SlotsOf;
    if n == 0 {
      NoEntries(s, i, acc);
      return [];
    }
    var p := ReadRecord(s, count).value;
    var more := TidyParse(p.1, n - 1, count, i + 1, Some(p.0.0), acc[p.0.0 := p.0.1], vec);
    var first := Record(p.0.0, vec(i), p.0.1.meta);
    recs := [first] + more;
    FirstEntry(first, more, i, acc, s, p.1, ReadDirectory(s, n, count, acc).value.1);
    AscendingCons(first, more, above);
    VectorsCons(first, more, i, vec);
  }

  lemma NoEntries(s: Bytes, i: nat, acc: map<RecordId, Slot>)
    ensures s == DirectoryBytes([], i) + s && SlotsOf([], i, acc) == acc
  {
  }

  lemma FirstEntry(first: Record, more: seq<Record>, i: nat, acc: map<RecordId, Slot>, s: Bytes, tail: Bytes,
                   rest: Bytes)
    requires s == RecordBytes(Record(first.id, [], first.meta), i) + tail && tail == DirectoryBytes(more, i + 1) + rest
    ensures s == DirectoryBytes([first] + more, i) + rest
    ensures SlotsOf([first] + more, i, acc) == SlotsOf(more, i + 1, acc[first.id := Slot(i, first.meta)])
  {
    hide RecordBytes;
    WithoutVector(first, i);
    assert ([first] + more)[1..] == more;
    Assoc(RecordBytes(first, i), DirectoryBytes(more, i + 1), rest);
  }

  lemma VectorsCons(first: Record, more: seq<Record>, i: nat, vec: nat -> Vector)
    requires first.vector == vec(i) && forall j | 0 <= j < |more| :: more[j].vector == vec(i + 1 + j)
    ensures forall j | 0 <= j < 1 + |more| :: ([first] + more)[j].vector == vec(i + j)
  {
    forall j | 0 <= j < 1 + |more| ensures ([first] + more)[j].vector == vec(i + j) {
      if j > 0 { assert more[j - 1].vector == vec(i + 1 + (j - 1)); }
    }
  }

  lemma AscendingCons(first: Record, more: seq<Record>, above: Option<RecordId>)
    requires forall j | 0 <= j < |more| :: IdLess(first.id, more[j].id)
    requires forall j, k | 0 <= j < k < |more| :: IdLess(more[j].id, more[k].id)
    requires above.Some? ==> IdLess(above.value, first.id)
    ensures var recs := [first] + more;
      && (forall j, k | 0 <= j < k < |recs| :: IdLess(recs[j].id, recs[k].id))
      && (above.Some? ==> forall j | 0 <= j < |recs| :: IdLess(above.value, recs[j].id))
  {
    IdOrder();
    hide IdLess;
    var recs := [first] + more;
    forall j, k | 0 <= j < k < |recs| ensures IdLess(recs[j].id, recs[k].id) {
      assert recs[k] == more[k - 1] && (j > 0 ==> recs[j] == more[j - 1]);
    }
    if above.Some? {
      forall j | 0 <= j < |recs| ensures IdLess(above.value, recs[j].id) {
        if j > 0 { assert recs[j] == more[j - 1] && IdLess(first.id, more[j - 1].id); }
      }
    }
  }

  lemma {:induction false} VectorSound(s: Bytes, dim: nat)
    requires 4 * dim <= |s|
    ensures VectorBytes(VectorAt(s, dim)) == s[..4 * dim]
    decreases dim
  {
    hide LE, FromLE;
    if dim > 0 {
      VectorSound(s[4..], dim - 1);
      LEFromLE(s[..4]);
      assert VectorAt(s, dim)[1..] == VectorAt(s[4..], dim - 1);
      Joined(s, 4, 4 * (dim - 1));
    }
  }

  lemma Joined(s: Bytes, a: nat, b: nat)
    requires a + b <= |s|
    ensures s[..a + b] == s[..a] + s[a..][..b]
  {
  }

  lemma NextPlace(t: Bytes, stride: nat, j: nat)
    requires 0 <= stride * (j + 1) && stride * (j + 1) + stride <= |t|
    ensures 0 <= stride * j && stride * j + stride <= |t[stride..]|
    ensures t[stride..][stride * j..] == t[stride * (j + 1)..]
  {
    OneMore(stride, j + 1);
    var at := stride * j;
    assert t[stride..][at..] == t[stride + at..];
  }

  /** Vectors read at their strides are written back as the region they were read from. */
  lemma {:induction false} VectorsSound(recs: seq<Record>, dim: nat, t: Bytes)
    requires 4 * dim * |recs| <= |t|
    requires forall j | 0 <= j < |recs| ::
      0 <= 4 * dim * j && 4 * dim * j + 4 * dim <= |t| && recs[j].vector == VectorAt(t[4 * dim * j..], dim)
    ensures VectorsBytes(recs) == t[..4 * dim * |recs|]
    decreases |recs|
  {
    hide VectorAt, VectorBytes;
    if recs != [] {
      OneMore(4 * dim, |recs|);
      assert recs[0].vector == VectorAt(t[4 * dim * 0..], dim) && t[4 * dim * 0..] == t;
      VectorSound(t, dim);
      var rest, u := recs[1..], t[4 * dim..];
      forall j | 0 <= j < |rest|
        ensures 0 <= 4 * dim * j && 4 * dim * j + 4 * dim <= |u| && rest[j].vector == VectorAt(u[4 * dim * j..], dim)
      {
        assert rest[j] == recs[j + 1];
        NextPlace(t, 4 * dim, j);
      }
      VectorsSound(rest, dim, u);
      Joined(t, 4 * dim, 4 * dim * |rest|);
    }
  }

  /** A field is the encoding of what is read from it. */
  lemma FieldSound(s: Bytes, at: nat, n: nat)
    requires at + n <= |s|
    ensures s[at..at + n] == LE(IntAt(s, at, n), n)
  {
    LEFromLE(s[at..at + n]);
  }

  /** A longer slice is a shorter one and what follows it. */
  lemma Longer(s: Bytes, a: nat, b: nat, c: nat)
    requires a <= b <= c <= |s|
    ensures s[a..c] == s[a..b] + s[b..c] && (c == b + 1 ==> s[b..c] == [s[b]])
  {
  }

  lemma FrontSound(s: Bytes)
    requires |s| >= HEADER_SIZE && s[..8] == MAGIC
    ensures FrontBytes(ReadHeader(s)) == s[0..24]
  {
    hide LE, FromLE, IntAt;
    FieldSound(s, 8, 4); FieldSound(s, 12, 4); FieldSound(s, 16, 4);
    Longer(s, 0, 8, 12); Longer(s, 0, 12, 16); Longer(s, 0, 16, 20);
    Longer(s, 0, 20, 21); Longer(s, 0, 21, 22); Longer(s, 0, 22, 23); Longer(s, 0, 23, 24);
    assert s[0..8] == s[..8];
  }

  lemma BackSound(s: Bytes)
    requires |s| >= HEADER_SIZE
    ensures BackBytes(ReadHeader(s)) == s[24..HEADER_SIZE]
  {
    hide LE, FromLE, IntAt;
    FieldSound(s, 24, 8); FieldSound(s, 32, 4); FieldSound(s, 36, 8); FieldSound(s, 44, 8);
    FieldSound(s, 52, 8); FieldSound(s, 60, 8); FieldSound(s, 68, 8);
    Longer(s, 24, 32, 36); Longer(s, 24, 36, 44); Longer(s, 24, 44, 52);
    Longer(s, 24, 52, 60); Longer(s, 24, 60, 68); Longer(s, 24, 68, 76);
  }

  /** The header bytes are those of the header read from them. */
  lemma HeaderSound(s: Bytes)
    requires |s| >= HEADER_SIZE && s[..8] == MAGIC
    ensures s == FrontBytes(ReadHeader(s)) + BackBytes(ReadHeader(s)) + s[HEADER_SIZE..]
  {
    hide FrontBytes, BackBytes, ReadHeader;
    FrontSound(s);
    BackSound(s);
    ThreeParts(s);
  }

  lemma ThreeParts(s: Bytes)
    requires |s| >= HEADER_SIZE
    ensures s == s[0..24] + s[24..HEADER_SIZE] + s[HEADER_SIZE..]
  {
  }

  /** The vector at a place of the vector region. */
  function VectorAtPlace(s: Bytes, h: Header): nat -> Vector
    requires HeaderOk(h, |s|)
  {
    i => SlotVector(s, h, Slot(i, None))
  }

  /** What a tidy accepted image was read as: its records in directory order. */
  lemma TidyRecords(s: Bytes, h: Header, l: Loaded) returns (recs: seq<Record>)
    requires |s| >= HEADER_SIZE && HeaderOk(h, |s|) && ReadBody(s, h).Some?
    requires l == LoadedFrom(s, h, ReadBody(s, h).value)
    requires HEADER_SIZE + h.nameLength <= |s|
    requires TidyEntries(s[HEADER_SIZE + h.nameLength..], h.recordCount, h.recordCount, 0, None)
    ensures RecordList(l.records) == recs && |recs| == h.recordCount
    ensures forall j | 0 <= j < |recs| :: recs[j].vector == SlotVector(s, h, Slot(j, None))
    ensures var dir := ReadDirectory(s[HEADER_SIZE + h.nameLength..], h.recordCount, h.recordCount, map[]);
      dir.Some? && s[HEADER_SIZE + h.nameLength..] == DirectoryBytes(recs, 0) + dir.value.1
  {
    hide HeaderOk, TidyEntries, ReadDirectory, SlotsOf, DirectoryBytes, IdLess, RecordList, RecordsIn;
    var slots := ReadBody(s, h).value;
    var vec := VectorAtPlace(s, h);
    recs := TidyParse(s[HEADER_SIZE + h.nameLength..], h.recordCount, h.recordCount, 0, None, map[], vec);
    IdsDistinct(recs);
    SlotsOfFacts(recs, 0, map[]);
    PlacedVectors(recs, s, h, slots);
    SameRecords(recs, s, h, slots);
    ListOfMap(recs);
  }

  lemma PlacedVectors(recs: seq<Record>, s: Bytes, h: Header, slots: map<RecordId, Slot>)
    requires HeaderOk(h, |s|) && slots == SlotsOf(recs, 0, map[])
    requires forall i, j | 0 <= i < j < |recs| :: recs[i].id != recs[j].id
    requires forall j | 0 <= j < |recs| :: recs[j].vector == SlotVector(s, h, Slot(j, None))
    ensures forall id | id in slots ::
      slots[id].vectorIndex < |recs| && SlotVector(s, h, slots[id]) == recs[slots[id].vectorIndex].vector
  {
    hide SlotsOf, HeaderOk, SlotVector;
    SlotsOfFacts(recs, 0, map[]);
    forall id | id in slots
      ensures slots[id].vectorIndex < |recs| && SlotVector(s, h, slots[id]) == recs[slots[id].vectorIndex].vector
    {
      var j :| 0 <= j < |recs| && recs[j].id == id;
      PlaceOnly(s, h, slots[id]);
    }
  }

  /** The metadata of a slot does not matter for its vector. */
  lemma PlaceOnly(s: Bytes, h: Header, slot: Slot)
    requires HeaderOk(h, |s|)
    ensures SlotVector(s, h, slot) == SlotVector(s, h, Slot(slot.vectorIndex, None))
  {
  }

  lemma PlaceRead(s: Bytes, h: Header, j: nat)
    requires HeaderOk(h, |s|) && j < h.recordCount
    ensures var dim, t := h.dimensionality, s[h.vectorOff..];
      && 0 <= 4 * dim * j && 4 * dim * j + 4 * dim <= |t|
      && SlotVector(s, h, Slot(j, None)) == VectorAt(t[4 * dim * j..], dim)
  {
    hide VectorAt;
    var stride := 4 * h.dimensionality;
    Commute(stride, j);
    StrideInside(j, h.recordCount, stride);
    SliceOfSuffix(s, h.vectorOff, stride * j);
  }

  /** The vector region of an accepted image is the encoding of the vectors at its places. */
  lemma RegionSound(s: Bytes, h: Header, recs: seq<Record>)
    requires HeaderOk(h, |s|) && |recs| == h.recordCount
    requires forall j | 0 <= j < |recs| :: recs[j].vector == SlotVector(s, h, Slot(j, None))
    ensures VectorsBytes(recs) == s[h.vectorOff..h.vectorOff + h.vectorLen]
  {
    hide VectorsBytes, SlotVector;
    var dim, t := h.dimensionality, s[h.vectorOff..];
    forall j | 0 <= j < |recs|
      ensures 0 <= 4 * dim * j && 4 * dim * j + 4 * dim <= |t| && recs[j].vector == VectorAt(t[4 * dim * j..], dim)
    {
      PlaceRead(s, h, j);
    }
    hide VectorAt;
    Commute(4 * dim, |recs|);
    VectorsSound(recs, dim, t);
    SliceOfSuffix(s, h.vectorOff, 4 * dim * |recs|);
  }

  /** The body of a tidy image, part by part. */
  lemma BodySound(s: Bytes, h: Header, d: SnapshotData, end: nat)
    requires HEADER_SIZE + h.nameLength <= end && h.vectorOff == end + PadLength(end)
    requires h.indexOff == h.vectorOff + h.vectorLen && |s| == h.indexOff + h.indexLen
    requires d.config.name == s[HEADER_SIZE..HEADER_SIZE + h.nameLength]
    requires DirectoryOf(d) == s[HEADER_SIZE + h.nameLength..end]
    requires forall i | end <= i < h.vectorOff :: s[i] == 0
    requires VectorsBytes(d.records) == s[h.vectorOff..h.indexOff] && d.indexBlob == s[h.indexOff..]
    ensures Body(d) == s[HEADER_SIZE..] && VectorOff(d) == h.vectorOff
  {
    hide DirectoryOf, VectorsBytes, PadLength;
    assert s[end..h.vectorOff] == Padding(PadLength(end));
    FiveParts(s, HEADER_SIZE, HEADER_SIZE + h.nameLength, end, h.vectorOff, h.indexOff);
  }

  lemma FiveParts(s: Bytes, a: nat, b: nat, c: nat, d: nat, e: nat)
    requires a <= b <= c <= d <= e <= |s|
    ensures s[a..] == s[a..b] + s[b..c] + s[c..d] + s[d..e] + s[e..]
  {
  }

  /** An accepted tidy image is the image of what was read from it. */
  lemma TidyIsImage(s: Bytes)
    requires Decode(s).Success? && Storable(SourceOf(Decode(s).value)) && TidyLayout(s)
    ensures Image(SourceOf(Decode(s).value)) == s
  {
    hide CrcOf, HeaderOk, ReadHeader, TidyEntries, Storable, RecordList, ReadDirectory, IndexOk, DirectoryBytes,
      VectorsBytes, RecordsIn, FrontBytes, BackBytes, Body, VectorOff, PadLength;
    var h, l := ReadHeader(s), Decode(s).value;
    var d, n := SourceOf(l), HEADER_SIZE + h.nameLength;
    HeaderBounds(s, h);
    var recs := TidyRecords(s, h, l);
    var dir := ReadDirectory(s[n..], h.recordCount, h.recordCount, map[]).value;
    var end := |s| - |dir.1|;
    DirectorySlice(s, n, DirectoryBytes(recs, 0), dir.1);
    RegionSound(s, h, recs);
    BodySound(s, h, d, end);
    HeaderMatches(s, h, d);
    HeaderSound(s);
  }

  lemma DirectorySlice(s: Bytes, n: nat, dir: Bytes, rest: Bytes)
    requires n <= |s| && s[n..] == dir + rest
    ensures |s| - |rest| == n + |dir| && s[n..n + |dir|] == dir
  {
    assert s[n..][..|dir|] == dir;
  }

  lemma HeaderMatches(s: Bytes, h: Header, d: SnapshotData)
    requires Storable(d) && |s| >= HEADER_SIZE && h.version == VERSION && h.flags == 0
    requires h.reserved0 == 0 && h.reserved1 == 0 && HeaderOk(h, |s|)
    requires d.config.dimensionality == h.dimensionality && d.config.metric == h.metric && d.indexType == h.indexType
    requires |d.records| == h.recordCount && |d.config.name| == h.nameLength && |d.indexBlob| == h.indexLen
    requires VectorOff(d) == h.vectorOff && h.indexOff == h.vectorOff + h.vectorLen
    requires Body(d) == s[HEADER_SIZE..] && h.crc == CrcOf(s[HEADER_SIZE..])
    ensures HeaderFor(d) == h
  {
    hide CrcOf, Body, VectorOff, Storable;
  }

  /** Encoding what was decoded, with the index region carried over, gives the same bytes if and only if the layout is
      tidy. */
  lemma LayoutExact(s: Bytes)
    requires Decode(s).Success? && |s| < RESAVE_LIMIT
    ensures Storable(SourceOf(Decode(s).value))
    ensures Image(SourceOf(Decode(s).value)) == s <==> TidyLayout(s)
  {
    hide Decode, Storable, Image, TidyLayout;
    DecodedStorable(s);
    ImageIsTidy(SourceOf(Decode(s).value));
    DecodedSize(s);
    if TidyLayout(s) { TidyIsImage(s); }
  }

  lemma DecodedSize(s: Bytes)
    requires Decode(s).Success?
    ensures |s| >= HEADER_SIZE
  {
  }

  // ---------------------------------------------------------------- the rebuilt index

  /** The parameters of an inverted file are written back as they were read. */
  lemma FileAgain(region: Bytes)
    requires |region| == 12
    ensures FromLE(region[..4]) < TWO32 && FromLE(region[4..]) < TWO64
    ensures Ivf.Region(FromLE(region[..4]), FromLE(region[4..])) == region
  {
    Pow256Values();
    LEFromLE(region[..4]);
    LEFromLE(region[4..]);
    hide LE, FromLE;
    assert region == region[..4] + region[4..];
  }

  lemma RegionNotEmpty(h: HnswFormat.RawHeader, raw: HnswCanonical.RawGraph)
    ensures HnswFormat.RegionBytes(h, raw) != []
  {
    hide HnswFormat.NodesBytes;
  }

  /** What a rebuilt graph is serialized to. */
  lemma GraphAgain(region: Bytes, vectors: map<RecordId, Vector>, dim: nat, metric: Metric)
    requires HnswPersist.Loads(region, vectors)
    ensures var (h, raw) := HnswFormat.ReadRegion(region).value;
      var p, g := HnswPersist.ParamsOf(h, dim, metric), HnswCanonical.Build(raw, vectors);
      && HnswPersist.Storable(p, g) && 0 < |HnswPersist.Region(p, g)| <= |region|
      && (HnswPersist.Region(p, g) == region <==> TidyIndex(1, region))
  {
    hide HnswFormat.ReadRegion, HnswCanonical.Build, HnswResave.CanonicalRegion, HnswPersist.Storable,
      HnswFormat.RegionBytes;
    var (h, raw) := HnswFormat.ReadRegion(region).value;
    var p, g := HnswPersist.ParamsOf(h, dim, metric), HnswCanonical.Build(raw, vectors);
    HnswResave.RebuiltStorable(region, vectors, dim, metric);
    HnswResave.RegionResaved(region, vectors, dim, metric);
    RegionNotEmpty(HnswPersist.HeaderOf(p), HnswCanonical.Canonical(g.nodes));
  }

  /** The index rebuilt from a region serializes, in no more bytes, and to that region if and only if it is tidy. */
  lemma IndexAgain(index: Index, l: Loaded, metric: Metric)
    requires RebuiltIndex(index, l, metric) && (l.region == [] <==> l.indexType == 0)
    ensures IndexStorable(index) && TypeOf(index) == l.indexType
    ensures |BlobOf(index)| <= |l.region| && (BlobOf(index) == [] <==> l.indexType == 0)
    ensures BlobOf(index) == l.region <==> TidyIndex(l.indexType, l.region)
  {
    hide HnswPersist.Loads, HnswFormat.ReadRegion, HnswPersist.Storable, HnswPersist.Region, HnswCanonical.Build,
      FromLE, LE, Holds, TidyIndex, VectorsIn;
    match index
    case NoIndex => NoneTidy(l.region);
    case Graph(g) =>
      GraphAgain(l.region, VectorsIn(l.records), l.config.dimensionality, metric);
    case Inverted(f) =>
      FileAgain(l.region);
      NoneTidy(l.region);
  }

  lemma NoneTidy(region: Bytes)
    ensures TidyIndex(0, region) && TidyIndex(2, region)
  {
  }

  // ---------------------------------------------------------------- the exact condition

  lemma DecodedIndex(s: Bytes)
    requires Decode(s).Success?
    ensures var h, l := ReadHeader(s), Decode(s).value;
      && l.indexType == h.indexType && h.indexOff + h.indexLen <= |s|
      && l.region == s[h.indexOff..h.indexOff + h.indexLen]
  {
    hide CrcOf, ReadHeader, ReadBody, RecordsIn, IndexOk;
  }

  lemma LayoutEnds(s: Bytes)
    requires |s| >= HEADER_SIZE && TidyLayout(s)
    ensures |s| == ReadHeader(s).indexOff + ReadHeader(s).indexLen
  {
    hide ReadHeader, TidyEntries, ReadDirectory;
  }

  /** An accepted image is tidy when its layout is, and the region decoded from it. */
  lemma TidyParts(s: Bytes)
    requires Decode(s).Success?
    ensures |s| >= HEADER_SIZE
    ensures Tidy(s) <==> TidyLayout(s) && TidyIndex(Decode(s).value.indexType, Decode(s).value.region)
  {
    hide Decode, ReadHeader, TidyLayout, TidyIndex;
    DecodedSize(s);
    DecodedIndex(s);
    if TidyLayout(s) {
      LayoutEnds(s);
      var h := ReadHeader(s);
      assert s[h.indexOff..] == s[h.indexOff..h.indexOff + h.indexLen];
    }
  }

  /** What the collection loaded from an image is saved from. */
  lemma LoadedView(c: Collection, l: Loaded, metric: Metric, allocator: MemoryAllocator)
    requires LoadedAs(c, l, metric, allocator)
    ensures ViewOf(c) == Loaded(l.config, TypeOf(c.index), l.records, BlobOf(c.index))
    ensures RebuiltIndex(c.index, l, metric)
  {
    hide RebuiltIndex, Collection.Sound, Collection.Stored, Collection.Seeded, BlobOf;
  }

  /** The view under another region is encoded to the same image only when the region is the same. */
  lemma SameRegion(s: Bytes, l: Loaded)
    requires Decode(s).Success? && Storable(SourceOf(l)) && Image(SourceOf(l)) == s
    ensures Decode(s).value.region == l.region
  {
    hide Storable, Image, Decode, RecordMap, RecordList, IndexOk;
    DecodeImage(SourceOf(l));
  }

  /** A view of the decoded records under some region fits the format and is encoded to the image if and only if the
      layout is tidy and the region the same. */
  lemma ViewExact(s: Bytes, blob: Bytes)
    requires Decode(s).Success? && |s| < RESAVE_LIMIT && |blob| <= |Decode(s).value.region|
    requires blob == [] <==> Decode(s).value.indexType == 0
    ensures var l := Decode(s).value;
      var d := SourceOf(Loaded(l.config, l.indexType, l.records, blob));
      && |s| >= HEADER_SIZE && Storable(d) && (Image(d) == s <==> TidyLayout(s) && blob == l.region)
  {
    hide Decode, Storable, Image, TidyLayout, RecordList;
    var l := Decode(s).value;
    var view := Loaded(l.config, l.indexType, l.records, blob);
    DecodedSize(s);
    ViewAgain(s, blob);
    LayoutExact(s);
    if Image(SourceOf(view)) == s { SameRegion(s, view); }
    assert blob == l.region ==> view == l;
  }

  /** Any collection loaded from an accepted image, coherent or not, can be saved, and is saved to the same bytes if and
      only if the image is tidy. */
  lemma ResaveExact(c: Collection, s: Bytes, metric: Metric, allocator: MemoryAllocator)
    requires Decode(s).Success? && |s| < RESAVE_LIMIT && LoadedAs(c, Decode(s).value, metric, allocator)
    ensures |s| >= HEADER_SIZE && Writable(c)
    ensures Image(SourceOf(ViewOf(c))) == s <==> Tidy(s)
  {
    hide Decode, LoadedAs, Storable, Image, Tidy, TidyLayout, TidyIndex, RebuiltIndex, ViewOf, IndexStorable, BlobOf,
      SourceOf;
    var l := Decode(s).value;
    LoadedView(c, l, metric, allocator);
    RegionKept(s);
    IndexAgain(c.index, l, metric);
    ViewExact(s, BlobOf(c.index));
    TidyParts(s);
  }

  /** Loads an image and saves the collection again: the same bytes if and only if the image is tidy. */
  method Resave(image: Bytes, mapBase: int, allocator: MemoryAllocator, tag: Tag, metrics: Byte -> Metric,
                shuffles: nat -> IvfModel.Shuffle) returns (r: Result<Bytes>)
    requires allocator.Valid() && TagBlocks(allocator.live, tag) == {}
    requires mapBase >= allocator.capacity || mapBase + |image| <= 0
    requires (forall seed :: IvfModel.Permutes(shuffles(seed))) && |image| < RESAVE_LIMIT
    ensures if Decode(image).Failure? then r == Failure(Decode(image).category)
      else r.Success? && |image| >= HEADER_SIZE && (r.value == image <==> Tidy(image))
  {
    hide Decode, LoadedAs, LegalIndex, Tidy, Image, ViewOf, Writable, Collection.Valid, IvfModel.Permutes, TagBlocks,
      MemoryAllocator.Valid, SourceOf;
    var loaded := Load(image, mapBase, allocator, tag, metrics, shuffles);
    if loaded.Failure? {
      return Failure(loaded.category);
    }
    var c := loaded.value;
    ResaveExact(c, image, metrics(Decode(image).value.config.metric), allocator);
    var again := Save(c);
    r := Success(again);
  }

  // ---------------------------------------------------------------- images that are not saved again as they were

  /** If the collection was loaded as decoded, it is saved to another image than this one. */
  ghost predicate SavedOtherwise(c: Collection, l: Loaded, s: Bytes, metric: Metric, allocator: MemoryAllocator)
    reads c, c.allocator, Objects(c.index)
  {
    LoadedAs(c, l, metric, allocator) ==> Writable(c) && Image(SourceOf(ViewOf(c))) != s
  }

  lemma UntidyLost(c: Collection, s: Bytes, metric: Metric, allocator: MemoryAllocator)
    requires Decode(s).Success? && HEADER_SIZE <= |s| < RESAVE_LIMIT && !Tidy(s)
    ensures SavedOtherwise(c, Decode(s).value, s, metric, allocator)
  {
    hide Decode, LoadedAs, Writable, Image, ViewOf, SourceOf, Tidy;
    if LoadedAs(c, Decode(s).value, metric, allocator) { ResaveExact(c, s, metric, allocator); }
  }

  /** The image of an empty collection with a flag set in its header. */
  function FlaggedImage(): Bytes {
    var d := SnapshotData(Config([97], 1, 0), 0, [], []);
    EmptyStorable(d);
    Behind(HeaderFor(d).(flags := 1), d)
  }

  /** What it is decoded to. */
  function FlaggedLoaded(): Loaded { Loaded(Config([97], 1, 0), 0, map[], []) }

  /** A flag in the header is accepted and not written again: any collection loaded from such an image is saved to
      another one. */
  lemma FlagsDropped(c: Collection, metric: Metric, allocator: MemoryAllocator)
    ensures Decode(FlaggedImage()) == Success(FlaggedLoaded())
    ensures SavedOtherwise(c, FlaggedLoaded(), FlaggedImage(), metric, allocator)
  {
    hide Decode, SavedOtherwise, Tidy, FlaggedImage, FlaggedLoaded;
    FlaggedAccepted();
    UntidyLost(c, FlaggedImage(), metric, allocator);
  }

  lemma FlaggedAccepted()
    ensures Decode(FlaggedImage()) == Success(FlaggedLoaded())
    ensures HEADER_SIZE <= |FlaggedImage()| < RESAVE_LIMIT && !Tidy(FlaggedImage())
  {
    hide Storable, HeaderFor, Decode, Tidy, Behind, TidyLayout, TidyIndex;
    FlaggedDecodes(SnapshotData(Config([97], 1, 0), 0, [], []));
  }

  lemma FlaggedDecodes(d: SnapshotData)
    requires d == SnapshotData(Config([97], 1, 0), 0, [], [])
    ensures Storable(d)
    ensures var s := Behind(HeaderFor(d).(flags := 1), d);
      Decode(s) == Success(Loaded(d.config, 0, map[], [])) && HEADER_SIZE <= |s| < RESAVE_LIMIT && !Tidy(s)
  {
    EmptyStorable(d);
    hide Storable, HeaderFor, Decode, OutcomeOf, Tidy, Behind, Body, RecordMap, ReadHeader, CrcOf, IndexOk,
      TidyLayout, TidyIndex, VectorsIn, DirectoryOf, VectorsBytes;
    var f := HeaderFor(d);
    SnapshotChanges.HeaderChanges(d, 1, 0, 0, f.reserved0, f.reserved1, f.vectorLen, f.crc);
    HeaderFields(d);
    EmptyOutcome(d);
    BehindHeader(d, f.(flags := 1));
    ShortBody(d);
    FlagUntidy(Behind(f.(flags := 1), d));
  }

  lemma EmptyStorable(d: SnapshotData)
    requires d == SnapshotData(Config([97], 1, 0), 0, [], [])
    ensures Storable(d)
  {
    assert DirectoryOf(d) == [] && VectorsBytes(d.records) == [];
  }

  lemma ShortBody(d: SnapshotData)
    requires |d.config.name| == 1 && d.records == [] && |d.indexBlob| <= 28
    ensures |Body(d)| < 200
  {
    assert DirectoryOf(d) == [] && VectorsBytes(d.records) == [];
  }

  lemma EmptyOutcome(d: SnapshotData)
    requires d == SnapshotData(Config([97], 1, 0), 0, [], [])
    ensures OutcomeOf(d) == Success(Loaded(d.config, 0, map[], []))
  {
    assert RecordMap([]) == map[];
  }

  lemma FlagUntidy(s: Bytes)
    requires |s| >= HEADER_SIZE && ReadHeader(s).flags == 1
    ensures !Tidy(s)
  {
    hide ReadHeader;
  }

  /** An empty graph under the construction parameters m = 0 and ef_construction = 0. */
  function UnclampedRegion(): Bytes {
    HnswFormat.RegionBytes(HnswFormat.RawHeader(0, 0, 0), HnswCanonical.RawGraph(-1, HnswCanonical.NONE, []))
  }

  /** The image of an empty collection with this index. */
  function UnclampedImage(): Bytes {
    var d := SnapshotData(Config([97], 1, 0), 1, [], UnclampedRegion());
    UnclampedStorable(d);
    Image(d)
  }

  /** What it is decoded to. */
  function UnclampedLoaded(): Loaded { Loaded(Config([97], 1, 0), 1, map[], UnclampedRegion()) }

  /** Stored construction parameters below their minimum are accepted and come back clamped: such an image is laid out
      as the encoder does, and any collection loaded from it is saved to another one. */
  lemma ParametersClamped(c: Collection, metric: Metric, allocator: MemoryAllocator)
    ensures Decode(UnclampedImage()) == Success(UnclampedLoaded())
    ensures |UnclampedImage()| >= HEADER_SIZE && TidyLayout(UnclampedImage())
    ensures SavedOtherwise(c, UnclampedLoaded(), UnclampedImage(), metric, allocator)
  {
    hide Decode, SavedOtherwise, Tidy, TidyLayout, UnclampedImage, UnclampedLoaded;
    UnclampedAccepted();
    UntidyLost(c, UnclampedImage(), metric, allocator);
  }

  lemma UnclampedAccepted()
    ensures Decode(UnclampedImage()) == Success(UnclampedLoaded())
    ensures HEADER_SIZE <= |UnclampedImage()| < RESAVE_LIMIT
    ensures TidyLayout(UnclampedImage()) && !Tidy(UnclampedImage())
  {
    hide Storable, Decode, Image, Tidy, TidyLayout, TidyIndex, UnclampedRegion;
    var d := SnapshotData(Config([97], 1, 0), 1, [], UnclampedRegion());
    UnclampedDecodes(d);
    UnclampedUntidy(d);
  }

  lemma UnclampedDecodes(d: SnapshotData)
    requires d == SnapshotData(Config([97], 1, 0), 1, [], UnclampedRegion())
    ensures Storable(d) && Decode(Image(d)) == Success(Loaded(d.config, 1, map[], UnclampedRegion()))
    ensures HEADER_SIZE <= |Image(d)| < RESAVE_LIMIT
  {
    UnclampedStorable(d);
    hide Storable, Decode, Image, OutcomeOf, UnclampedRegion, Body, HeaderFor, ReadHeader;
    UnclampedOutcome(d);
    DecodeImage(d);
    ImageHeader(d);
    ShortBody(d);
  }

  lemma UnclampedUntidy(d: SnapshotData)
    requires d == SnapshotData(Config([97], 1, 0), 1, [], UnclampedRegion())
    ensures Storable(d) && |Image(d)| >= HEADER_SIZE && TidyLayout(Image(d)) && !Tidy(Image(d))
  {
    UnclampedStorable(d);
    hide Storable, Decode, Image, Tidy, TidyLayout, UnclampedRegion, TidyIndex, HeaderFor, ReadHeader, CrcOf, Body;
    UnclampedDecodes(d);
    ImageIsTidy(d);
    NotCanonical();
    TidyParts(Image(d));
  }

  lemma UnclampedLength()
    ensures |UnclampedRegion()| == 28
  {
  }

  lemma UnclampedStorable(d: SnapshotData)
    requires d == SnapshotData(Config([97], 1, 0), 1, [], UnclampedRegion())
    ensures Storable(d) && |d.indexBlob| == 28
  {
    hide UnclampedRegion;
    UnclampedLength();
    ShortBody(d);
  }

  /** Its region is read as it was laid out. */
  lemma UnclampedRead()
    ensures HnswPersist.Loads(UnclampedRegion(), map[])
    ensures HnswFormat.ReadRegion(UnclampedRegion())
      == Some((HnswFormat.RawHeader(0, 0, 0), HnswCanonical.RawGraph(-1, HnswCanonical.NONE, [])))
  {
    HnswLegal.Accepted(HnswFormat.RawHeader(0, 0, 0), HnswCanonical.RawGraph(-1, HnswCanonical.NONE, []), map[]);
    hide HnswPersist.Loads, HnswFormat.ReadRegion, HnswFormat.RegionBytes;
  }

  lemma UnclampedOutcome(d: SnapshotData)
    requires d == SnapshotData(Config([97], 1, 0), 1, [], UnclampedRegion())
    ensures OutcomeOf(d) == Success(Loaded(d.config, 1, map[], UnclampedRegion()))
  {
    hide UnclampedRegion, HnswPersist.Loads;
    UnclampedRead();
    assert RecordMap([]) == map[];
    assert VectorsIn(map[]) == map[];
  }

  lemma NotCanonical()
    ensures !TidyIndex(1, UnclampedRegion())
  {
    hide UnclampedRegion, HnswFormat.ReadRegion;
    UnclampedRead();
  }
}
