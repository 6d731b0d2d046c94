/** What happens to a saved image that is changed: content, length, gates and header fields. */
module SnapshotChanges {
  import opened Ordering
  import opened Identifiers
  import opened Vectors
  import opened Errors
  import opened SnapshotFormat
  import opened SnapshotLayout
  import opened SnapshotImage
  import opened SnapshotRoundTrip
  import Crc64
  import HnswPersist

  // ---------------------------------------------------------------- detection

  lemma CrcOfInjective(a: Bytes, b: Bytes)
    requires CrcOf(a) == CrcOf(b)
    ensures Crc64.Crc(a, Crc64.Zeros(64)) == Crc64.Crc(b, Crc64.Zeros(64))
  {
    Crc64.BitsOfNumber(Crc64.Crc(a, Crc64.Zeros(64)));
    Crc64.BitsOfNumber(Crc64.Crc(b, Crc64.Zeros(64)));
  }

  /** Any change confined to 64 consecutive content bits of a saved image, wherever they start, is reported as
      corruption. */
  lemma ContentChangeDetected(d: SnapshotData, bad: Bytes, k: nat)
    requires Storable(d) && Crc64.DifferWithin(bad, Body(d), k, 64) && bad != Body(d)
    ensures Decode(Image(d)[..HEADER_SIZE] + bad) == Failure(Corruption)
  {
    var s := Image(d);
    ImageHeader(d);
    var h := HeaderFor(d);
    VersionAndCrc(d);
    hide Image, HeaderFor, Body, Storable, CrcOf, IntAt, Crc64.MessageBits;
    var t := s[..HEADER_SIZE] + bad;
    SameHeader(s, t);
    assert t[HEADER_SIZE..] == bad;
    if CrcOf(bad) == h.crc {
      CrcOfInjective(bad, Body(d));
      Crc64.DetectsBurst(bad, Body(d), k, Crc64.Zeros(64));
    }
    hide ReadHeader, DecodeBody, HeaderOk;
  }

  lemma SameHeader(s: Bytes, t: Bytes)
    requires |s| >= HEADER_SIZE && |t| >= HEADER_SIZE && s[..HEADER_SIZE] == t[..HEADER_SIZE]
    ensures s[..8] == t[..8] && ReadHeader(s) == ReadHeader(t)
  {
    hide IntAt;
    SameAt(s, t, 0, 8);
    SameAt(s, t, 8, 4); SameAt(s, t, 12, 4); SameAt(s, t, 16, 4);
    SameAt(s, t, 20, 1); SameAt(s, t, 21, 1); SameAt(s, t, 22, 1); SameAt(s, t, 23, 1);
    SameAt(s, t, 24, 8); SameAt(s, t, 32, 4); SameAt(s, t, 36, 8); SameAt(s, t, 44, 8);
    SameAt(s, t, 52, 8); SameAt(s, t, 60, 8); SameAt(s, t, 68, 8);
  }

  lemma SameAt(s: Bytes, t: Bytes, at: nat, n: nat)
    requires |s| >= HEADER_SIZE && |t| >= HEADER_SIZE && s[..HEADER_SIZE] == t[..HEADER_SIZE]
    requires 0 < n && at + n <= HEADER_SIZE
    ensures s[at..at + n] == t[at..at + n] && s[at] == t[at] && IntAt(s, at, n) == IntAt(t, at, n)
  {
    SliceOfPrefix(s, HEADER_SIZE, at, n);
    SliceOfPrefix(t, HEADER_SIZE, at, n);
    assert s[at] == s[at..at + n][0] && t[at] == t[at..at + n][0];
  }

  lemma SliceOfPrefix(s: Bytes, k: nat, at: nat, n: nat)
    requires at + n <= k <= |s|
    ensures s[..k][at..at + n] == s[at..at + n]
  {
  }

  // ---------------------------------------------------------------- the error categories

  /** What is wrong behind the gates: the checksum, a header field, the directory, or the index region. */
  ghost predicate Broken(s: Bytes)
    requires |s| >= HEADER_SIZE
  {
    var h := ReadHeader(s);
    CrcOf(s[HEADER_SIZE..]) != h.crc || !HeaderOk(h, |s|) || DecodeBody(s, h).Failure?
  }

  /** Each error category has exactly one cause, and the causes are looked at in this order: a file that is too short or
      has the wrong magic, an unknown version, then everything else. */
  lemma ErrorsExact(s: Bytes)
    ensures Decode(s) == Failure(SnapshotNotFound) <==> |s| < HEADER_SIZE || s[..8] != MAGIC
    ensures Decode(s) == Failure(UnsupportedVersion) <==>
      |s| >= HEADER_SIZE && s[..8] == MAGIC && ReadHeader(s).version != VERSION
    ensures Decode(s) == Failure(Corruption) <==>
      |s| >= HEADER_SIZE && s[..8] == MAGIC && ReadHeader(s).version == VERSION && Broken(s)
    ensures Decode(s).Failure? ==> Decode(s).category in {SnapshotNotFound, UnsupportedVersion, Corruption}
  {
    hide CrcOf, ReadHeader, HeaderOk, ReadBody, LoadedFrom, IndexOk;
  }

  /** A saved image cut short anywhere is rejected: inside the header as no snapshot, behind it as corruption, whatever
      the checksum of the rest happens to be. */
  lemma TruncationDetected(d: SnapshotData, n: nat)
    requires Storable(d) && n < |Image(d)|
    ensures Decode(Image(d)[..n]) == Failure(if n < HEADER_SIZE then SnapshotNotFound else Corruption)
  {
    hide Image, HeaderFor, Storable, Body, DirectoryOf, VectorsBytes, VectorOff, CrcOf, ReadHeader, DecodeBody, Decode,
      HeaderOk;
    var s, t, h := Image(d), Image(d)[..n], HeaderFor(d);
    ImageHeader(d);
    HeaderFields(d);
    BodyLengths(d);
    VersionAndCrc(d);
    ErrorsExact(t);
    if n >= HEADER_SIZE {
      assert t[..HEADER_SIZE] == s[..HEADER_SIZE];
      SameHeader(s, t);
      assert h.indexOff + h.indexLen == |s|;
      CutHeader(h, n);
    }
  }

  lemma CutHeader(h: Header, n: nat)
    requires h.indexOff + h.indexLen > n
    ensures !HeaderOk(h, n)
  {
  }

  /** A saved image with other bytes in place of its magic and version: the magic decides first, then the version, and
      neither error is reported when both are right. */
  lemma GateChanges(d: SnapshotData, magic: Bytes, version: U32)
    requires Storable(d) && |magic| == 8
    ensures var s := magic + LE(version, 4) + Image(d)[12..];
      && (Decode(s) == Failure(SnapshotNotFound) <==> magic != MAGIC)
      && (Decode(s) == Failure(UnsupportedVersion) <==> magic == MAGIC && version != VERSION)
      && (magic == MAGIC && version == VERSION ==> s == Image(d))
  {
    var image, s := Image(d), magic + LE(version, 4) + Image(d)[12..];
    ImageHeader(d);
    VersionAndCrc(d);
    ErrorsExact(s);
    hide Image, HeaderFor, Storable, Body, Decode, Broken, IntAt, LE;
    GateFields(image, magic, version);
  }

  lemma GateFields(image: Bytes, magic: Bytes, version: U32)
    requires |image| >= HEADER_SIZE && |magic| == 8
    ensures |LE(version, 4)| == 4
    ensures var s := magic + LE(version, 4) + image[12..];
      && |s| == |image| && s[..8] == magic && ReadHeader(s).version == version
      && (image[..8] == magic && ReadHeader(image).version == version ==> s == image)
  {
    var s := magic + LE(version, 4) + image[12..];
    Pow256Values();
    LELength(version);
    hide LE, FromLE;
    assert s[8..12] == LE(version, 4);
    FieldBack(s, 8, version, 4);
    LEFromLE(image[8..12]);
    assert image == image[..8] + image[8..12] + image[12..];
  }

  lemma LELength(version: U32)
    ensures |LE(version, 4)| == 4
  {
  }

  // ---------------------------------------------------------------- changed header fields

  /** Behind a header of this version, the checksum of the body decides first, then the fields, then the body. */
  lemma BehindDecodes(d: SnapshotData, h: Header)
    requires h.version == VERSION
    ensures var s := Behind(h, d);
      && |s| == HEADER_SIZE + |Body(d)|
      && Decode(s) == (if h.crc != CrcOf(Body(d)) || !HeaderOk(h, |s|) then Failure(Corruption) else DecodeBody(s, h))
  {
    hide Behind, Body, CrcOf, HeaderOk, ReadHeader, DecodeBody;
    BehindHeader(d, h);
  }

  /** The view with another metric and index type. */
  function Retyped(d: SnapshotData, metric: Byte, indexType: Byte): SnapshotData {
    SnapshotData(Config(d.config.name, d.config.dimensionality, metric), indexType, d.records, d.indexBlob)
  }

  lemma RetypedFits(d: SnapshotData, metric: Byte, indexType: Byte)
    requires Storable(d) && metric <= 2 && indexType <= 2 && (indexType == 0 <==> d.indexBlob == [])
    ensures var e := Retyped(d, metric, indexType);
      && Storable(e) && Body(e) == Body(d)
      && HeaderFor(e) == HeaderFor(d).(metric := metric, indexType := indexType)
  {
    hide FitsRecord, IdLess, CrcOf, VectorsBytes, DirectoryBytes;
    var e := Retyped(d, metric, indexType);
    assert DirectoryOf(e) == DirectoryOf(d) && VectorOff(e) == VectorOff(d) && Body(e) == Body(d);
  }

  /** A saved image with other values in the fields that say nothing about the layout. The flags and the reserved
      bytes are ignored and the metric, the checksum and the region length are judged on their own: the image is
      accepted, as the view under the metric and index type it now names, exactly when that metric exists, the index
      region can be read as that type, and checksum and length are the saved ones. */
  lemma HeaderChanges(d: SnapshotData, flags: U32, metric: Byte, indexType: Byte, reserved0: Byte, reserved1: Byte,
                      length: U64, crc: U64)
    requires Storable(d)
    ensures var f := HeaderFor(d);
      var h := f.(flags := flags, metric := metric, indexType := indexType, reserved0 := reserved0,
                  reserved1 := reserved1, vectorLen := length, crc := crc);
      Decode(Behind(h, d)) ==
        if crc == f.crc && length == f.vectorLen && metric <= 2 && indexType <= 2
           && (indexType == 0 <==> d.indexBlob == [])
        then OutcomeOf(Retyped(d, metric, indexType)) else Failure(Corruption)
  {
    hide Behind, Body, CrcOf, HeaderOk, HeaderFor, DecodeBody, Decode, OutcomeOf, Storable, Retyped;
    var f := HeaderFor(d);
    var h := f.(flags := flags, metric := metric, indexType := indexType, reserved0 := reserved0,
                reserved1 := reserved1, vectorLen := length, crc := crc);
    VersionAndCrc(d);
    HeaderIsOk(d);
    HeaderFields(d);
    BehindDecodes(d, h);
    OtherFields(f, h, HEADER_SIZE + |Body(d)|);
    if crc == f.crc && HeaderOk(h, HEADER_SIZE + |Body(d)|) {
      var e := Retyped(d, metric, indexType);
      RetypedFits(d, metric, indexType);
      SameBehind(h, d, e);
      BehindLaidOut(e, h);
      BodyDecodes(e, Behind(h, e), h);
    }
  }

  lemma SameBehind(h: Header, a: SnapshotData, b: SnapshotData)
    requires Body(a) == Body(b)
    ensures Behind(h, a) == Behind(h, b)
  {
  }

  /** Which of the fields that say nothing about the layout are in order. */
  lemma OtherFields(f: Header, h: Header, total: nat)
    requires HeaderOk(f, total)
    requires h == f.(flags := h.flags, metric := h.metric, indexType := h.indexType, reserved0 := h.reserved0,
                     reserved1 := h.reserved1, vectorLen := h.vectorLen, crc := h.crc)
    ensures HeaderOk(h, total) <==>
      h.vectorLen == f.vectorLen && h.metric <= 2 && h.indexType <= 2 && (h.indexType == 0 <==> f.indexLen == 0)
  {
  }

  lemma Product(count: nat, a: nat, b: nat)
    requires count > 0 && count * (4 * a) == count * (4 * b)
    ensures a == b
  {
    assert count * (4 * a) - count * (4 * b) == 4 * count * (a - b);
  }

  lemma CountProduct(a: nat, b: nat, dim: nat)
    requires dim > 0 && a * (4 * dim) == b * (4 * dim)
    ensures a == b
  {
    assert a * (4 * dim) - b * (4 * dim) == 4 * dim * (a - b);
  }

  /** A saved image under another record count is rejected: the count is tied to the length of the vector region. */
  lemma CountChanges(d: SnapshotData, count: U64)
    requires Storable(d) && count != |d.records|
    ensures Decode(Behind(HeaderFor(d).(recordCount := count), d)) == Failure(Corruption)
  {
    hide Behind, Body, CrcOf, HeaderFor, DecodeBody, Decode, Storable;
    var f := HeaderFor(d);
    var h := f.(recordCount := count);
    VersionAndCrc(d);
    HeaderIsOk(d);
    HeaderFields(d);
    BehindDecodes(d, h);
    if HeaderOk(h, HEADER_SIZE + |Body(d)|) { CountProduct(count, |d.records|, f.dimensionality); }
  }

  /** A saved image under another dimensionality is rejected unless it holds no record; then it is the empty view of
      that dimensionality. */
  lemma DimensionChanges(d: SnapshotData, dim: U32)
    requires Storable(d) && dim != d.config.dimensionality
    ensures Decode(Behind(HeaderFor(d).(dimensionality := dim), d)) ==
      if d.records == [] && 1 <= dim <= 65536
      then OutcomeOf(SnapshotData(Config(d.config.name, dim, d.config.metric), d.indexType, [], d.indexBlob))
      else Failure(Corruption)
  {
    hide Behind, Body, CrcOf, HeaderFor, DecodeBody, Decode, Storable, OutcomeOf;
    var f := HeaderFor(d);
    var h := f.(dimensionality := dim);
    VersionAndCrc(d);
    HeaderIsOk(d);
    HeaderFields(d);
    BehindDecodes(d, h);
    OtherDimension(f, dim, HEADER_SIZE + |Body(d)|);
    hide HeaderOk;
    if HeaderOk(h, HEADER_SIZE + |Body(d)|) {
      var e := SnapshotData(Config(d.config.name, dim, d.config.metric), d.indexType, [], d.indexBlob);
      EmptyRedimensioned(d, dim);
      SameBehind(h, d, e);
      BehindLaidOut(e, h);
      BodyDecodes(e, Behind(h, e), h);
    }
  }

  lemma OtherDimension(f: Header, dim: U32, total: nat)
    requires HeaderOk(f, total) && dim != f.dimensionality
    ensures HeaderOk(f.(dimensionality := dim), total) <==> f.recordCount == 0 && 1 <= dim <= 65536
  {
    if f.recordCount > 0 && f.recordCount * (4 * dim) == f.vectorLen { Product(f.recordCount, dim, f.dimensionality); }
  }

  lemma EmptyRedimensioned(d: SnapshotData, dim: nat)
    requires Storable(d) && d.records == [] && 1 <= dim <= 65536
    ensures var e := SnapshotData(Config(d.config.name, dim, d.config.metric), d.indexType, [], d.indexBlob);
      && Storable(e) && Body(e) == Body(d) && HeaderFor(e) == HeaderFor(d).(dimensionality := dim)
  {
    hide FitsRecord, IdLess, CrcOf;
    var e := SnapshotData(Config(d.config.name, dim, d.config.metric), d.indexType, [], d.indexBlob);
    assert DirectoryOf(e) == DirectoryOf(d) && VectorOff(e) == VectorOff(d) && Body(e) == Body(d);
  }

  // ---------------------------------------------------------------- a moved vector region

  /** The directory behind any header that tells its length and place. */
  lemma DirectoryBehind(d: SnapshotData, h: Header, s: Bytes)
    requires Storable(d) && h.nameLength == |d.config.name| && h.recordCount == |d.records|
    requires |s| >= HEADER_SIZE && s == Behind(h, d) && HeaderOk(h, |s|)
    ensures ReadBody(s, h) == if DirectoryEnd(d) > h.vectorOff then None else Some(SlotsOf(d.records, 0, map[]))
  {
    hide Behind, Body, Storable, VectorsBytes, DirectoryBytes, HeaderOk, SlotsOf, ReadDirectory, FitsRecord, IdLess;
    var n, dir := HEADER_SIZE + |d.config.name|, |DirectoryOf(d)|;
    BehindHeader(d, h);
    BodyParts(d);
    SliceOfSuffix(s, HEADER_SIZE, |d.config.name|);
    SliceOfSuffix(s, HEADER_SIZE, |d.config.name| + dir);
    RecordsFit(d);
    ReadDirectoryBack(d.records, 0, |d.records|, map[], s[n + dir..]);
  }

  lemma NameBehind(d: SnapshotData, h: Header)
    requires Storable(d)
    ensures |Behind(h, d)| >= HEADER_SIZE + |d.config.name|
    ensures Behind(h, d)[HEADER_SIZE..HEADER_SIZE + |d.config.name|] == d.config.name
  {
    hide Behind, Body, Storable;
    BehindHeader(d, h);
    BodyParts(d);
    SliceOfSuffix(Behind(h, d), HEADER_SIZE, |d.config.name|);
  }

  /** Where the directory of a view ends in the file. */
  function DirectoryEnd(d: SnapshotData): nat { HEADER_SIZE + |d.config.name| + |DirectoryOf(d)| }

  lemma SameIds(d: SnapshotData, s: Bytes, h: Header)
    requires Storable(d) && HeaderOk(h, |s|)
    ensures VectorsIn(RecordsIn(s, h, SlotsOf(d.records, 0, map[]))).Keys == VectorsIn(RecordMap(d.records)).Keys
  {
    hide Storable, HeaderOk, SlotsOf, RecordsIn, RecordMap, VectorsIn;
    RecordsFit(d);
    SlotKeys(s, h, SlotsOf(d.records, 0, map[]));
    RecordKeys(d.records);
  }

  lemma SlotKeys(s: Bytes, h: Header, slots: map<RecordId, Slot>)
    requires HeaderOk(h, |s|)
    ensures VectorsIn(RecordsIn(s, h, slots)).Keys == slots.Keys
  {
    hide HeaderOk, SlotVector;
  }

  lemma RecordKeys(recs: seq<Record>)
    requires forall i, j | 0 <= i < j < |recs| :: recs[i].id != recs[j].id
    ensures VectorsIn(RecordMap(recs)).Keys == SlotsOf(recs, 0, map[]).Keys
  {
    hide SlotsOf;
    SlotsOfFacts(recs, 0, map[]);
    var slots := SlotsOf(recs, 0, map[]);
    forall id | id in slots ensures slots[id].vectorIndex < |recs| {
      var i :| 0 <= i < |recs| && recs[i].id == id;
    }
  }

  lemma IndexByIds(indexType: Byte, region: Bytes, a: map<RecordId, Vector>, b: map<RecordId, Vector>)
    requires a.Keys == b.Keys
    ensures IndexOk(indexType, region, a) <==> IndexOk(indexType, region, b)
  {
    assert forall id :: id in a <==> id in b;
  }

  /** A saved image under another vector offset: the offset is bounded, not checked against the layout, so an image
      with its vector region moved anywhere behind the directory is accepted, with the same ids and metadata and with
      whatever components lie there. */
  lemma OffsetChanges(d: SnapshotData, off: U64)
    requires Storable(d) && OutcomeOf(d).Success?
    ensures var h := HeaderFor(d).(vectorOff := off);
      var s := Behind(h, d);
      if DirectoryEnd(d) <= off && off + h.vectorLen <= |s|
      then HeaderOk(h, |s|)
        && Decode(s) == Success(Loaded(d.config, d.indexType, RecordsIn(s, h, SlotsOf(d.records, 0, map[])),
                                       d.indexBlob))
      else Decode(s) == Failure(Corruption)
  {
    hide Behind, Body, CrcOf, HeaderFor, Decode, Storable, RecordsIn, SlotsOf, IndexOk, ReadBody, RecordMap,
      DirectoryOf;
    var f := HeaderFor(d);
    var h, s := f.(vectorOff := off), Behind(f.(vectorOff := off), d);
    VersionAndCrc(d);
    HeaderIsOk(d);
    HeaderFields(d);
    BodyLengths(d);
    VectorOffAligned(d);
    BehindDecodes(d, h);
    OtherOffset(f, off, |s|, DirectoryEnd(d));
    hide HeaderOk, VectorOff;
    if HeaderOk(h, |s|) {
      NameBehind(d, h);
      DirectoryBehind(d, h, s);
      SameIds(d, s, h);
      IndexByIds(d.indexType, d.indexBlob, VectorsIn(RecordsIn(s, h, SlotsOf(d.records, 0, map[]))),
                 VectorsIn(RecordMap(d.records)));
      RegionBehind(d, h);
    }
  }

  lemma OtherOffset(f: Header, off: U64, total: nat, end: nat)
    requires HeaderOk(f, total) && end >= HEADER_SIZE
    ensures end <= off && off + f.vectorLen <= total ==> HeaderOk(f.(vectorOff := off), total)
    ensures end <= off && HeaderOk(f.(vectorOff := off), total) ==> off + f.vectorLen <= total
  {
  }

  /** The index region behind a header that tells its place. */
  lemma RegionBehind(d: SnapshotData, h: Header)
    requires Storable(d) && h.indexOff == HeaderFor(d).indexOff && h.indexLen == HeaderFor(d).indexLen
    ensures var s := Behind(h, d);
      h.indexOff + h.indexLen <= |s| && s[h.indexOff..h.indexOff + h.indexLen] == d.indexBlob
  {
    hide Behind, Body, Storable, VectorsBytes, DirectoryOf, HeaderFor, HeaderOk;
    HeaderFields(d);
    BodyParts(d);
    BodyLengths(d);
    BehindHeader(d, h);
    SliceOfSuffix(Behind(h, d), HEADER_SIZE, VectorOff(d) - HEADER_SIZE + |VectorsBytes(d.records)|);
  }

  // ---------------------------------------------------------------- a moved index region

  /** The parts behind any header lie where the encoder put them. */
  lemma AnyLaidOut(d: SnapshotData, h: Header)
    requires Storable(d)
    ensures LaidOut(d, Behind(h, d), HeaderFor(d))
  {
    hide Behind, Body, Storable, VectorsBytes, DirectoryOf, ReadHeader, HeaderOk, CrcOf, VectorOff, HeaderFor;
    BehindHeader(d, h);
    HeaderFields(d);
    HeaderIsOk(d);
    PartsInFile(d, Behind(h, d));
  }

  /** The vectors do not depend on where the index region is said to be. */
  lemma SameVectors(s: Bytes, f: Header, h: Header, slots: map<RecordId, Slot>)
    requires HeaderOk(f, |s|) && HeaderOk(h, |s|)
    requires h.vectorOff == f.vectorOff && h.dimensionality == f.dimensionality
    ensures RecordsIn(s, h, slots) == RecordsIn(s, f, slots)
  {
    hide HeaderOk;
  }

  lemma OtherIndexPlace(f: Header, off: U64, len: U64, total: nat)
    requires HeaderOk(f, total)
    ensures HeaderOk(f.(indexOff := off, indexLen := len), total)
      <==> off + len <= total && (f.indexType == 0 <==> len == 0)
  {
  }

  /** The records of a saved image whose header places the index region elsewhere. */
  lemma RecordsKept(d: SnapshotData, off: U64, len: U64)
    requires Storable(d) && off + len <= HEADER_SIZE + |Body(d)| && (d.indexType == 0 <==> len == 0)
    ensures var h := HeaderFor(d).(indexOff := off, indexLen := len);
      var s := Behind(h, d);
      && |s| == HEADER_SIZE + |Body(d)| && HeaderOk(h, |s|)
      && ReadBody(s, h) == Some(SlotsOf(d.records, 0, map[]))
      && RecordsIn(s, h, SlotsOf(d.records, 0, map[])) == RecordMap(d.records)
  {
    hide Behind, Body, CrcOf, HeaderFor, Storable, RecordsIn, SlotsOf, ReadBody, RecordMap, DirectoryOf, LaidOut,
      VectorsBytes, ReadHeader;
    var f := HeaderFor(d);
    var h := f.(indexOff := off, indexLen := len);
    var s := Behind(h, d);
    BehindHeader(d, h);
    HeaderIsOk(d);
    HeaderFields(d);
    VectorOffAligned(d);
    OtherIndexPlace(f, off, len, |s|);
    hide HeaderOk, VectorOff;
    DirectoryBehind(d, h, s);
    AnyLaidOut(d, h);
    RecordsDecode(d, s, f);
    SameVectors(s, f, h, SlotsOf(d.records, 0, map[]));
  }

  /** A saved image whose header places the index region elsewhere, with another length or the same: it is accepted
      exactly when the place is inside the file, empty only without an index, and what lies there can be read as an
      index over the records; it is then the view with those bytes as its region. */
  lemma IndexPlaceChanges(d: SnapshotData, off: U64, len: U64)
    requires Storable(d)
    ensures var s := Behind(HeaderFor(d).(indexOff := off, indexLen := len), d);
      Decode(s) ==
        if off + len <= |s| && (d.indexType == 0 <==> len == 0)
           && IndexOk(d.indexType, s[off..off + len], VectorsIn(RecordMap(d.records)))
        then Success(Loaded(d.config, d.indexType, RecordMap(d.records), s[off..off + len]))
        else Failure(Corruption)
  {
    hide Behind, Body, CrcOf, HeaderFor, Decode, Storable, RecordsIn, SlotsOf, ReadBody, RecordMap, DirectoryOf,
      IndexOk, VectorsIn, VectorsBytes, VectorOff;
    var f := HeaderFor(d);
    var h := f.(indexOff := off, indexLen := len);
    VersionAndCrc(d);
    HeaderIsOk(d);
    HeaderFields(d);
    BehindDecodes(d, h);
    OtherIndexPlace(f, off, len, HEADER_SIZE + |Body(d)|);
    hide HeaderOk;
    if off + len <= HEADER_SIZE + |Body(d)| && (d.indexType == 0 <==> len == 0) {
      NameBehind(d, h);
      RecordsKept(d, off, len);
    }
  }

  /** Under another index offset alone, a saved image without an index means the same view wherever the offset is inside
      the file. */
  lemma IndexOffsetChanges(d: SnapshotData, off: U64)
    requires Storable(d) && d.indexType == 0
    ensures var s := Behind(HeaderFor(d).(indexOff := off), d);
      Decode(s) == if off <= |s| then Success(Loaded(d.config, 0, RecordMap(d.records), [])) else Failure(Corruption)
  {
    hide Behind, Body, CrcOf, HeaderFor, Decode, Storable, RecordMap, DirectoryOf, VectorsIn, VectorsBytes, VectorOff,
      HnswPersist.Loads;
    NoRegion(d);
    HeaderFields(d);
    IndexPlaceChanges(d, off, 0);
    var f := HeaderFor(d);
    assert f.(indexOff := off) == f.(indexOff := off, indexLen := 0);
    var s := Behind(f.(indexOff := off), d);
    if off <= |s| { assert s[off..off + 0] == []; }
  }

  lemma NoRegion(d: SnapshotData)
    requires Storable(d)
    ensures d.indexType == 0 <==> d.indexBlob == []
  {
    hide Body, FitsRecord, IdLess;
  }
}
