/** Encoding a collection view to a snapshot image and decoding the image. */
module SnapshotRoundTrip {
  import opened Ordering
  import opened Identifiers
  import opened Vectors
  import opened Errors
  import opened SnapshotFormat
  import opened SnapshotLayout
  import opened SnapshotImage
  import Crc64
  import HnswPersist

  // ---------------------------------------------------------------- the header

  datatype Header = Header(version: U32, flags: U32, dimensionality: U32, metric: Byte, indexType: Byte,
                           reserved0: Byte, reserved1: Byte, recordCount: U64, nameLength: U32,
                           vectorOff: U64, vectorLen: U64, indexOff: U64, indexLen: U64, crc: U64)

  /** The first 24 bytes. */
  function FrontBytes(h: Header): Bytes {
    MAGIC + LE(h.version, 4) + LE(h.flags, 4) + LE(h.dimensionality, 4)
    + [h.metric] + [h.indexType] + [h.reserved0] + [h.reserved1]
  }

  /** The other 52 bytes. */
  function BackBytes(h: Header): Bytes {
    LE(h.recordCount, 8) + LE(h.nameLength, 4) + LE(h.vectorOff, 8) + LE(h.vectorLen, 8)
    + LE(h.indexOff, 8) + LE(h.indexLen, 8) + LE(h.crc, 8)
  }

  function IntAt(s: Bytes, at: nat, n: nat): (v: nat)
    requires at + n <= |s|
    ensures v < Pow256(n)
  {
    LEFromLE(s[at..at + n]);
    FromLE(s[at..at + n])
  }

  function ReadHeader(s: Bytes): Header
    requires |s| >= HEADER_SIZE
  {
    Pow256Values();
    Header(IntAt(s, 8, 4), IntAt(s, 12, 4), IntAt(s, 16, 4), s[20], s[21], s[22], s[23],
           IntAt(s, 24, 8), IntAt(s, 32, 4), IntAt(s, 36, 8), IntAt(s, 44, 8), IntAt(s, 52, 8), IntAt(s, 60, 8),
           IntAt(s, 68, 8))
  }

  /** A field laid out at a known place is read back from it. */
  lemma FieldBack(s: Bytes, at: nat, v: nat, n: nat)
    requires at + n <= |s| && s[at..at + n] == LE(v, n) && v < Pow256(n)
    ensures IntAt(s, at, n) == v
  {
    FromLELE(v, n);
  }

  lemma FrontBack(h: Header, tail: Bytes)
    ensures |FrontBytes(h)| == 24
    ensures var s := FrontBytes(h) + tail;
      s[..8] == MAGIC && IntAt(s, 8, 4) == h.version && IntAt(s, 12, 4) == h.flags
      && IntAt(s, 16, 4) == h.dimensionality
      && s[20] == h.metric && s[21] == h.indexType && s[22] == h.reserved0 && s[23] == h.reserved1
  {
    hide LE, FromLE, IntAt;
    var s := FrontBytes(h) + tail;
    Pow256Values();
    assert s[8..12] == LE(h.version, 4);
    assert s[12..16] == LE(h.flags, 4);
    assert s[16..20] == LE(h.dimensionality, 4);
    FieldBack(s, 8, h.version, 4);
    FieldBack(s, 12, h.flags, 4);
    FieldBack(s, 16, h.dimensionality, 4);
  }

  lemma BackBack(h: Header, front: Bytes, tail: Bytes)
    requires |front| == 24
    ensures |BackBytes(h)| == 52
    ensures var s := front + BackBytes(h) + tail;
      && IntAt(s, 24, 8) == h.recordCount && IntAt(s, 32, 4) == h.nameLength && IntAt(s, 36, 8) == h.vectorOff
      && IntAt(s, 44, 8) == h.vectorLen && IntAt(s, 52, 8) == h.indexOff && IntAt(s, 60, 8) == h.indexLen
      && IntAt(s, 68, 8) == h.crc
  {
    hide LE, FromLE, IntAt;
    var s := front + BackBytes(h) + tail;
    Pow256Values();
    assert s[24..32] == LE(h.recordCount, 8);
    assert s[32..36] == LE(h.nameLength, 4);
    assert s[36..44] == LE(h.vectorOff, 8);
    assert s[44..52] == LE(h.vectorLen, 8);
    assert s[52..60] == LE(h.indexOff, 8);
    assert s[60..68] == LE(h.indexLen, 8);
    assert s[68..76] == LE(h.crc, 8);
    hide BackBytes;
    FieldBack(s, 24, h.recordCount, 8);
    FieldBack(s, 32, h.nameLength, 4);
    FieldBack(s, 36, h.vectorOff, 8);
    FieldBack(s, 44, h.vectorLen, 8);
    FieldBack(s, 52, h.indexOff, 8);
    FieldBack(s, 60, h.indexLen, 8);
    FieldBack(s, 68, h.crc, 8);
  }

  /** The header in front of any body reads back field by field. */
  lemma HeaderBack(h: Header, body: Bytes)
    ensures var s := FrontBytes(h) + BackBytes(h) + body;
      |s| == HEADER_SIZE + |body| && s[..8] == MAGIC && ReadHeader(s) == h && s[HEADER_SIZE..] == body
  {
    hide LE, FromLE, IntAt, FrontBytes, BackBytes;
    FrontBack(h, BackBytes(h) + body);
    BackBack(h, FrontBytes(h), body);
    Assoc(FrontBytes(h), BackBytes(h), body);
  }

  // ---------------------------------------------------------------- the image

  /** The content checksum as the number stored in the header. */
  function CrcOf(content: Bytes): U64 {
    var crc := Crc64.Crc(content, Crc64.Zeros(64));
    Crc64.NumberBound(crc);
    PowerOf64();
    Crc64.NumberOf(crc)
  }

  lemma PowerOf64()
    ensures Crc64.PowerOfTwo(64) == TWO64
  {
    assert Crc64.PowerOfTwo(8) == 256;
    PowerSum(8, 8); PowerSum(16, 16); PowerSum(32, 32);
  }

  lemma {:induction false} PowerSum(a: nat, b: nat)
    ensures Crc64.PowerOfTwo(a + b) == Crc64.PowerOfTwo(a) * Crc64.PowerOfTwo(b)
    decreases a
  {
    if a > 0 {
      PowerSum(a - 1, b);
      assert Crc64.PowerOfTwo(a + b) == 2 * (Crc64.PowerOfTwo(a - 1) * Crc64.PowerOfTwo(b));
    }
  }

  /** Zero bytes up to the next multiple of 64 of a file offset. */
  function PadLength(offset: nat): (n: nat)
    ensures n < REGION_ALIGNMENT && (offset + n) % REGION_ALIGNMENT == 0
  {
    assert offset == REGION_ALIGNMENT * (offset / REGION_ALIGNMENT) + offset % REGION_ALIGNMENT;
    if offset % REGION_ALIGNMENT == 0 then 0 else REGION_ALIGNMENT - offset % REGION_ALIGNMENT
  }

  function Padding(n: nat): Bytes { seq(n, _ => 0) }

  function DirectoryOf(d: SnapshotData): Bytes { DirectoryBytes(d.records, 0) }

  /** Where the vector region starts in the file. */
  function VectorOff(d: SnapshotData): nat {
    var end := HEADER_SIZE + |d.config.name| + |DirectoryOf(d)|;
    end + PadLength(end)
  }

  /** Everything after the header. */
  function Body(d: SnapshotData): Bytes {
    var end := HEADER_SIZE + |d.config.name| + |DirectoryOf(d)|;
    d.config.name + DirectoryOf(d) + Padding(PadLength(end)) + VectorsBytes(d.records) + d.indexBlob
  }

  function HeaderFor(d: SnapshotData): Header
    requires Storable(d)
  {
    BodyLengths(d);
    var length := |d.records| * (4 * d.config.dimensionality);
    Header(VERSION, 0, d.config.dimensionality, d.config.metric, d.indexType, 0, 0, |d.records|, |d.config.name|,
           VectorOff(d), length, VectorOff(d) + length, |d.indexBlob|, CrcOf(Body(d)))
  }

  /** The collection view fits the format. */
  ghost predicate Storable(d: SnapshotData) {
    && 1 <= d.config.dimensionality <= 65536 && d.config.metric <= 2 && d.indexType <= 2
    && 1 <= |d.config.name| <= 255
    && (d.indexType == 0 <==> d.indexBlob == [])
    && (forall r | r in d.records :: FitsRecord(r) && |r.vector| == d.config.dimensionality)
    && (forall i, j | 0 <= i < j < |d.records| :: IdLess(d.records[i].id, d.records[j].id))
    && HEADER_SIZE + |Body(d)| < TWO64
  }

  /** The parts of the body by length. */
  lemma BodyLengths(d: SnapshotData)
    requires Storable(d)
    ensures |d.records| <= |DirectoryOf(d)|
    ensures |VectorsBytes(d.records)| == |d.records| * (4 * d.config.dimensionality)
    ensures HEADER_SIZE + |Body(d)| == VectorOff(d) + |VectorsBytes(d.records)| + |d.indexBlob|
  {
    DirectoryLength(d.records, 0);
    VectorsLength(d.records, d.config.dimensionality);
    Commute(4 * d.config.dimensionality, |d.records|);
    hide DirectoryBytes, VectorsBytes, FitsRecord;
  }

  lemma Commute(a: nat, b: nat)
    ensures a * b == b * a
  {
  }

  lemma {:induction false} DirectoryLength(recs: seq<Record>, i: nat)
    ensures |recs| <= |DirectoryBytes(recs, i)|
    decreases |recs|
  {
    if recs != [] {
      DirectoryLength(recs[1..], i + 1);
      hide MetaBytes;
    }
  }

  /** The image of a view behind some header. */
  function Behind(h: Header, d: SnapshotData): Bytes { FrontBytes(h) + BackBytes(h) + Body(d) }

  function Image(d: SnapshotData): Bytes
    requires Storable(d)
  {
    Behind(HeaderFor(d), d)
  }

  // ---------------------------------------------------------------- decoding

  /** What loading installs: configuration, records, index type and index region. */
  datatype Loaded = Loaded(config: Config, indexType: Byte, records: map<RecordId, Stored>, region: Bytes)

  /** The checks on the header fields after version and checksum. */
  predicate HeaderOk(h: Header, total: nat) {
    && 1 <= h.dimensionality <= 65536 && h.metric <= 2 && h.indexType <= 2
    && h.recordCount <= total && h.nameLength <= total - HEADER_SIZE
    && HEADER_SIZE <= h.vectorOff <= total && h.vectorLen <= total - h.vectorOff
    && h.vectorLen == h.recordCount * (4 * h.dimensionality)
    && h.indexOff <= total && h.indexLen <= total - h.indexOff
    && (h.indexType == 0 <==> h.indexLen == 0)
    && 1 <= h.nameLength <= 255
  }

  /** The index region can be turned into an index over these vectors. */
  ghost predicate IndexOk(indexType: Byte, region: Bytes, vectors: map<RecordId, Vector>) {
    (indexType == 1 ==> HnswPersist.Loads(region, vectors)) && (indexType == 2 ==> |region| == 12)
  }

  /** The vector a slot points to, inside the image. */
  function SlotVector(image: Bytes, h: Header, slot: Slot): Vector
    requires HeaderOk(h, |image|)
  {
    var at := h.vectorOff + slot.vectorIndex * (4 * h.dimensionality);
    if at + 4 * h.dimensionality <= |image| then VectorAt(image[at..], h.dimensionality) else []
  }

  function RecordsIn(image: Bytes, h: Header, slots: map<RecordId, Slot>): map<RecordId, Stored>
    requires HeaderOk(h, |image|)
  {
    map id | id in slots :: Stored(SlotVector(image, h, slots[id]), slots[id].meta)
  }

  /** Loading an image: the gates in order, then the structural checks, which all report corruption. */
  ghost function Decode(image: Bytes): Result<Loaded> {
    if |image| < HEADER_SIZE || image[..8] != MAGIC then Failure(SnapshotNotFound)
    else
      var h := ReadHeader(image);
      if h.version != VERSION then Failure(UnsupportedVersion)
      else if CrcOf(image[HEADER_SIZE..]) != h.crc then Failure(Corruption)
      else if !HeaderOk(h, |image|) then Failure(Corruption)
      else DecodeBody(image, h)
  }

  /** The directory of a body; None when it is malformed or overruns the vector region. */
  function ReadBody(image: Bytes, h: Header): Option<map<RecordId, Slot>>
    requires |image| >= HEADER_SIZE && HeaderOk(h, |image|)
  {
    match ReadDirectory(image[HEADER_SIZE + h.nameLength..], h.recordCount, h.recordCount, map[])
    case None => None
    case Some(dir) => if |image| - |dir.1| > h.vectorOff then None else Some(dir.0)
  }

  function LoadedFrom(image: Bytes, h: Header, slots: map<RecordId, Slot>): Loaded
    requires |image| >= HEADER_SIZE && HeaderOk(h, |image|)
  {
    Loaded(Config(image[HEADER_SIZE..HEADER_SIZE + h.nameLength], h.dimensionality, h.metric),
           h.indexType, RecordsIn(image, h, slots), image[h.indexOff..h.indexOff + h.indexLen])
  }

  ghost function DecodeBody(image: Bytes, h: Header): Result<Loaded>
    requires |image| >= HEADER_SIZE && HeaderOk(h, |image|)
  {
    match ReadBody(image, h)
    case None => Failure(Corruption)
    case Some(slots) =>
      var l := LoadedFrom(image, h, slots);
      if !IndexOk(l.indexType, l.region, VectorsIn(l.records)) then Failure(Corruption) else Success(l)
  }

  // ---------------------------------------------------------------- the round trip

  /** The records of a view as a map. */
  function RecordMap(recs: seq<Record>): map<RecordId, Stored> { Assembled(recs, SlotsOf(recs, 0, map[])) }

  function Assembled(recs: seq<Record>, slots: map<RecordId, Slot>): map<RecordId, Stored> {
    map id | id in slots && slots[id].vectorIndex < |recs| :: Stored(recs[slots[id].vectorIndex].vector, slots[id].meta)
  }

  /** The records of a map in ascending id order: what a capture lists. */
  function RecordList(records: map<RecordId, Stored>): seq<Record> {
    var ids := SortedIds(records.Keys);
    seq(|ids|, i requires 0 <= i < |ids| =>
      (assert ids[i] in ids; Record(ids[i], records[ids[i]].vector, records[ids[i]].meta)))
  }

  /** The view that decoded state is saved from. */
  function SourceOf(l: Loaded): SnapshotData { SnapshotData(l.config, l.indexType, RecordList(l.records), l.region) }

  lemma IdsDistinct(recs: seq<Record>)
    requires forall i, j | 0 <= i < j < |recs| :: IdLess(recs[i].id, recs[j].id)
    ensures forall i, j | 0 <= i < j < |recs| :: recs[i].id != recs[j].id
  {
    forall i, j | 0 <= i < j < |recs| ensures recs[i].id != recs[j].id {
      IdTrichotomy(recs[i].id, recs[i].id);
    }
  }

  lemma RecordMapFacts(recs: seq<Record>)
    requires forall i, j | 0 <= i < j < |recs| :: recs[i].id != recs[j].id
    ensures forall i | 0 <= i < |recs| ::
      recs[i].id in RecordMap(recs) && RecordMap(recs)[recs[i].id] == Stored(recs[i].vector, recs[i].meta)
    ensures forall id | id in RecordMap(recs) :: exists i | 0 <= i < |recs| :: recs[i].id == id
  {
    hide SlotsOf;
    SlotsOfFacts(recs, 0, map[]);
    var slots := SlotsOf(recs, 0, map[]);
    forall i | 0 <= i < |recs|
      ensures recs[i].id in RecordMap(recs) && RecordMap(recs)[recs[i].id] == Stored(recs[i].vector, recs[i].meta)
    {
      assert slots[recs[i].id] == Slot(0 + i, recs[i].meta);
    }
  }

  /** Listing the map of an ascending record list gives the list back. */
  lemma ListOfMap(recs: seq<Record>)
    requires forall i, j | 0 <= i < j < |recs| :: IdLess(recs[i].id, recs[j].id)
    ensures RecordList(RecordMap(recs)) == recs
  {
    hide IdLess, SlotsOf, RecordMap, SortedIds;
    IdsDistinct(recs);
    RecordMapFacts(recs);
    var m := RecordMap(recs);
    SortedIdList(recs, m.Keys);
    assert |RecordList(m)| == |recs|;
    forall i | 0 <= i < |recs| ensures RecordList(m)[i] == recs[i] {
      assert IdList(recs)[i] == recs[i].id;
    }
  }

  function IdList(recs: seq<Record>): seq<RecordId> { seq(|recs|, i requires 0 <= i < |recs| => recs[i].id) }

  lemma SortedIdList(recs: seq<Record>, keys: set<RecordId>)
    requires forall i, j | 0 <= i < j < |recs| :: IdLess(recs[i].id, recs[j].id)
    requires forall i | 0 <= i < |recs| :: recs[i].id in keys
    requires forall id | id in keys :: exists i | 0 <= i < |recs| :: recs[i].id == id
    ensures SortedIds(keys) == IdList(recs)
  {
    IdOrder();
    hide IdLess;
    var ids := IdList(recs);
    forall id ensures id in ids <==> id in keys {
      if id in keys { var i :| 0 <= i < |recs| && recs[i].id == id; assert ids[i] == id; }
    }
    EnumerationUnique(ids, SortedIds(keys), IdLess);
  }

  lemma BehindHeader(d: SnapshotData, h: Header)
    ensures var s := Behind(h, d);
      |s| == HEADER_SIZE + |Body(d)| && s[..8] == MAGIC && ReadHeader(s) == h && s[HEADER_SIZE..] == Body(d)
  {
    hide ReadHeader, FrontBytes, BackBytes, Body;
    HeaderBack(h, Body(d));
  }

  lemma ImageHeader(d: SnapshotData)
    requires Storable(d)
    ensures var s := Image(d);
      |s| == HEADER_SIZE + |Body(d)| && s[..8] == MAGIC && ReadHeader(s) == HeaderFor(d) && s[HEADER_SIZE..] == Body(d)
  {
    hide ReadHeader, HeaderFor, Storable, Behind, Body;
    BehindHeader(d, HeaderFor(d));
  }

  lemma HeaderIsOk(d: SnapshotData)
    requires Storable(d)
    ensures HeaderOk(HeaderFor(d), HEADER_SIZE + |Body(d)|)
  {
    BodyLengths(d);
    hide Body, DirectoryOf, VectorsBytes, FitsRecord, CrcOf, IdLess, PadLength;
    var length := |d.records| * (4 * d.config.dimensionality);
    assert HeaderFor(d).vectorLen == length && length >= 0;
  }

  /** Where the parts of the body lie. */
  lemma BodyParts(d: SnapshotData)
    requires Storable(d)
    ensures var n, v, b := |d.config.name|, VectorOff(d) - HEADER_SIZE, Body(d);
      && n <= v <= |b| && b[..n] == d.config.name && v + |VectorsBytes(d.records)| + |d.indexBlob| == |b|
      && b[n..] == DirectoryOf(d) + b[n + |DirectoryOf(d)|..] && n + |DirectoryOf(d)| <= v
      && b[v..] == VectorsBytes(d.records) + d.indexBlob
      && b[v + |VectorsBytes(d.records)|..] == d.indexBlob
  {
    hide DirectoryOf, VectorsBytes, Storable;
  }

  /** What the layout of `d` says about its image `s` and header `h`. */
  ghost predicate LaidOut(d: SnapshotData, s: Bytes, h: Header) {
    var n, dir := HEADER_SIZE + |d.config.name|, |DirectoryOf(d)|;
    && HeaderOk(h, |s|)
    && n + dir <= h.vectorOff && h.vectorOff + |VectorsBytes(d.records)| + |d.indexBlob| == |s|
    && s[HEADER_SIZE..n] == d.config.name
    && s[n..] == DirectoryOf(d) + s[n + dir..]
    && s[h.vectorOff..] == VectorsBytes(d.records) + d.indexBlob
    && s[h.indexOff..h.indexOff + h.indexLen] == d.indexBlob
    && h.nameLength == |d.config.name| && h.recordCount == |d.records| && h.dimensionality == d.config.dimensionality
    && h.metric == d.config.metric && h.indexType == d.indexType
  }

  lemma HeaderFields(d: SnapshotData)
    requires Storable(d)
    ensures var h := HeaderFor(d);
      && h.vectorOff == VectorOff(d) && h.vectorLen == |VectorsBytes(d.records)|
      && h.indexOff == h.vectorOff + h.vectorLen
      && h.indexLen == |d.indexBlob| && h.nameLength == |d.config.name| && h.recordCount == |d.records|
      && h.dimensionality == d.config.dimensionality && h.metric == d.config.metric && h.indexType == d.indexType
  {
    BodyLengths(d);
    hide Storable, VectorsBytes, Body, DirectoryOf, CrcOf, VectorOff;
  }

  /** The header says where the parts of the view lie and what they are. */
  ghost predicate Describes(h: Header, d: SnapshotData)
    requires Storable(d)
  {
    var f := HeaderFor(d);
    && h.vectorOff == f.vectorOff && h.indexOff == f.indexOff && h.indexLen == f.indexLen
    && h.nameLength == f.nameLength && h.recordCount == f.recordCount && h.dimensionality == f.dimensionality
    && h.metric == f.metric && h.indexType == f.indexType
  }

  lemma BehindLaidOut(d: SnapshotData, h: Header)
    requires Storable(d) && Describes(h, d) && HeaderOk(h, HEADER_SIZE + |Body(d)|)
    ensures LaidOut(d, Behind(h, d), h)
  {
    hide Behind, Body, Storable, VectorsBytes, DirectoryOf, ReadHeader, HeaderOk, CrcOf, VectorOff, HeaderFor;
    BehindHeader(d, h);
    HeaderFields(d);
    PartsInFile(d, Behind(h, d));
  }

  /** Where the parts of the body lie in a file with any header. */
  lemma PartsInFile(d: SnapshotData, s: Bytes)
    requires Storable(d) && |s| == HEADER_SIZE + |Body(d)| && s[HEADER_SIZE..] == Body(d)
    ensures var n, dir, v := HEADER_SIZE + |d.config.name|, |DirectoryOf(d)|, VectorOff(d);
      && n + dir <= v && v + |VectorsBytes(d.records)| + |d.indexBlob| == |s|
      && s[HEADER_SIZE..n] == d.config.name && s[n..] == DirectoryOf(d) + s[n + dir..]
      && s[v..] == VectorsBytes(d.records) + d.indexBlob && s[v + |VectorsBytes(d.records)|..] == d.indexBlob
  {
    hide Body, Storable, VectorsBytes, DirectoryOf;
    BodyParts(d);
    SliceOfSuffix(s, HEADER_SIZE, |d.config.name|);
    SliceOfSuffix(s, HEADER_SIZE, |d.config.name| + |DirectoryOf(d)|);
    SliceOfSuffix(s, HEADER_SIZE, VectorOff(d) - HEADER_SIZE);
    SliceOfSuffix(s, HEADER_SIZE, VectorOff(d) - HEADER_SIZE + |VectorsBytes(d.records)|);
    hide VectorOff;
  }

  lemma ImageLaidOut(d: SnapshotData)
    requires Storable(d)
    ensures LaidOut(d, Image(d), HeaderFor(d))
  {
    hide Body, Storable, HeaderOk, HeaderFor, FrontBytes, BackBytes, LaidOut;
    HeaderIsOk(d);
    BehindLaidOut(d, HeaderFor(d));
  }

  lemma SliceOfSuffix(s: Bytes, a: nat, n: nat)
    requires a + n <= |s|
    ensures s[a..][n..] == s[a + n..] && s[a..][..n] == s[a..a + n] && s[a + n..|s|] == s[a + n..]
  {
  }

  /** The directory in the image reads back as the slots of the records. */
  lemma DirectoryDecodes(d: SnapshotData, s: Bytes, h: Header)
    requires Storable(d) && LaidOut(d, s, h)
    ensures var n := HEADER_SIZE + |d.config.name|;
      n + |DirectoryOf(d)| <= |s| && ReadDirectory(s[n..], |d.records|, |d.records|, map[])
      == Some((SlotsOf(d.records, 0, map[]), s[n + |DirectoryOf(d)|..]))
  {
    hide Storable, SlotsOf, ReadDirectory, VectorsBytes, HeaderOk, FitsRecord, IdLess, DirectoryBytes;
    RecordsFit(d);
    ReadDirectoryBack(d.records, 0, |d.records|, map[], s[HEADER_SIZE + |d.config.name| + |DirectoryOf(d)|..]);
  }

  lemma RecordsFit(d: SnapshotData)
    requires Storable(d)
    ensures |d.records| < TWO64 && forall r | r in d.records :: FitsRecord(r)
    ensures forall i, j | 0 <= i < j < |d.records| :: d.records[i].id != d.records[j].id
  {
    BodyLengths(d);
    hide Body, FitsRecord, IdLess, DirectoryOf, VectorsBytes;
    IdsDistinct(d.records);
  }

  /** Every slot of the image points at the vector of its record. */
  lemma SlotVectorDecodes(d: SnapshotData, s: Bytes, h: Header, i: nat)
    requires Storable(d) && LaidOut(d, s, h) && i < |d.records|
    ensures SlotVector(s, h, Slot(i, d.records[i].meta)) == d.records[i].vector
  {
    hide Body, VectorAt, VectorsBytes, FitsRecord, HeaderOk, DirectoryOf, IdLess;
    var dim, v := d.config.dimensionality, h.vectorOff;
    VectorsBack(d.records, dim, i, d.indexBlob);
    Commute(i, 4 * dim);
    SliceOfSuffix(s, v, 4 * dim * i);
  }

  /** Every id of the directory has a slot for the vector and metadata of its own record. */
  lemma SlotDecodes(d: SnapshotData, s: Bytes, h: Header, id: RecordId)
    requires Storable(d) && LaidOut(d, s, h) && id in SlotsOf(d.records, 0, map[])
    ensures var slot := SlotsOf(d.records, 0, map[])[id];
      slot.vectorIndex < |d.records| && HeaderOk(h, |s|) && SlotVector(s, h, slot) == d.records[slot.vectorIndex].vector
  {
    assert HeaderOk(h, |s|);
    hide SlotVector, SlotsOf, Storable, LaidOut, HeaderOk, IdLess, FitsRecord;
    RecordsFit(d);
    SlotsOfFacts(d.records, 0, map[]);
    var i :| 0 <= i < |d.records| && d.records[i].id == id;
    SlotVectorDecodes(d, s, h, i);
  }

  /** The records of the image are the records of the view. */
  lemma RecordsDecode(d: SnapshotData, s: Bytes, h: Header)
    requires Storable(d) && LaidOut(d, s, h)
    ensures RecordsIn(s, h, SlotsOf(d.records, 0, map[])) == RecordMap(d.records)
  {
    assert HeaderOk(h, |s|);
    hide RecordsIn, Assembled, SlotVector, SlotsOf, Storable, LaidOut, HeaderOk, IdLess;
    var slots := SlotsOf(d.records, 0, map[]);
    forall id | id in slots
      ensures slots[id].vectorIndex < |d.records|
      ensures SlotVector(s, h, slots[id]) == d.records[slots[id].vectorIndex].vector
    {
      SlotDecodes(d, s, h, id);
    }
    SameRecords(d.records, s, h, slots);
  }

  lemma SameRecords(recs: seq<Record>, s: Bytes, h: Header, slots: map<RecordId, Slot>)
    requires HeaderOk(h, |s|)
    requires forall id | id in slots ::
      slots[id].vectorIndex < |recs| && SlotVector(s, h, slots[id]) == recs[slots[id].vectorIndex].vector
    ensures RecordsIn(s, h, slots) == Assembled(recs, slots)
  {
    hide SlotVector, HeaderOk;
  }

  /** What decoding makes of a view: the view, unless its index region does not fit its records. */
  ghost function OutcomeOf(d: SnapshotData): Result<Loaded> {
    if IndexOk(d.indexType, d.indexBlob, VectorsIn(RecordMap(d.records)))
    then Success(Loaded(d.config, d.indexType, RecordMap(d.records), d.indexBlob))
    else Failure(Corruption)
  }

  lemma BodyDecodes(d: SnapshotData, s: Bytes, h: Header)
    requires Storable(d) && LaidOut(d, s, h)
    ensures DecodeBody(s, h) == OutcomeOf(d)
  {
    hide RecordMap, RecordsIn, IndexOk, HeaderOk, Storable, ReadDirectory, SlotsOf, DirectoryOf, VectorsBytes;
    DirectoryDecodes(d, s, h);
    RecordsDecode(d, s, h);
  }

  /** Decoding the image of a view succeeds exactly when its index region fits its records, and returns the view. */
  lemma DecodeImage(d: SnapshotData)
    requires Storable(d)
    ensures Decode(Image(d)) == OutcomeOf(d)
  {
    hide Image, ReadHeader, HeaderFor, Body, RecordMap, IndexOk, CrcOf, HeaderOk, DecodeBody, Storable, LaidOut,
      OutcomeOf;
    var s, h := Image(d), HeaderFor(d);
    ImageHeader(d);
    VersionAndCrc(d);
    ImageLaidOut(d);
    LaidOutOk(d, s, h);
    BodyDecodes(d, s, h);
  }

  lemma VersionAndCrc(d: SnapshotData)
    requires Storable(d)
    ensures HeaderFor(d).version == VERSION && HeaderFor(d).crc == CrcOf(Body(d))
  {
    hide Storable, Body, CrcOf;
  }

  lemma LaidOutOk(d: SnapshotData, s: Bytes, h: Header)
    requires LaidOut(d, s, h)
    ensures HeaderOk(h, |s|)
  {
    hide HeaderOk, DirectoryOf, VectorsBytes;
  }

  /** Saving, loading and saving again gives the same bytes when the index serializes to its region. */
  lemma ResaveIdentical(d: SnapshotData)
    requires Storable(d) && IndexOk(d.indexType, d.indexBlob, VectorsIn(RecordMap(d.records)))
    ensures Decode(Image(d)).Success?
    ensures var again := SourceOf(Decode(Image(d)).value); again == d && Storable(again) && Image(again) == Image(d)
  {
    DecodeImage(d);
    ListOfMap(d.records);
    hide Decode, Image, RecordMap, RecordList, IndexOk, Storable;
  }

  /** The vector region starts on a 64-byte boundary, behind the directory. */
  lemma VectorRegionAligned(d: SnapshotData)
    requires Storable(d)
    ensures ReadHeader(Image(d)).vectorOff % 64 == 0
    ensures var end := HEADER_SIZE + |d.config.name| + |DirectoryOf(d)|;
      end <= ReadHeader(Image(d)).vectorOff < end + 64
  {
    ImageHeader(d);
    assert HeaderFor(d).vectorOff == VectorOff(d);
    hide Image, ReadHeader, HeaderFor, Storable, DirectoryOf, Body;
    VectorOffAligned(d);
    hide VectorOff;
  }

  lemma VectorOffAligned(d: SnapshotData)
    ensures VectorOff(d) % 64 == 0
    ensures var end := HEADER_SIZE + |d.config.name| + |DirectoryOf(d)|; end <= VectorOff(d) < end + 64
  {
    hide DirectoryOf, PadLength;
  }
}
