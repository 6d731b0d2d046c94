/** Parsing a snapshot image: the loops that advance a reader over metadata, header and directory. */
module SnapshotReader {
  import opened Ordering
  import opened Errors
  import opened SnapshotFormat
  import opened SnapshotLayout
  import opened SnapshotImage
  import opened SnapshotRoundTrip

  // ---------------------------------------------------------------- metadata

  /** A typed value; an unknown tag or a short read is malformed. */
  method ParseValue(r: ByteReader) returns (ok: bool, v: MetaValue)
    requires r.Valid() && r.ok
    modifies r
    ensures r.Valid() && ok == ReadValue(old(r.Rest())).Some?
    ensures ok ==> r.ok && ReadValue(old(r.Rest())) == Some((v, r.Rest()))
  {
    hide FromLE, ReadInt, ReadString;
    v := BoolValue(false);
    var tag := r.GetU8();
    if !r.ok {
      return false, v;
    }
    if tag == 0 {
      var s := r.GetString();
      return r.ok, StringValue(s);
    }
    if tag == 1 {
      var i := r.GetU64();
      return r.ok, IntValue(ToInt64(i));
    }
    if tag == 2 {
      var bits := r.GetU64();
      return r.ok, DoubleValue(bits);
    }
    if tag == 3 {
      var b := r.GetU8();
      return r.ok, BoolValue(b != 0);
    }
    ok := false;
  }

  method ParseEntries(r: ByteReader, count: nat) returns (ok: bool, m: Metadata)
    requires r.Valid() && r.ok
    modifies r
    ensures r.Valid() && ok == ReadEntries(old(r.Rest()), count, map[]).Some?
    ensures ok ==> r.ok && ReadEntries(old(r.Rest()), count, map[]) == Some((m, r.Rest()))
  {
    hide ReadString, ReadValue;
    m := map[];
    ghost var whole := ReadEntries(r.Rest(), count, map[]);
    for i := 0 to count
      invariant r.Valid() && r.ok
      invariant whole == ReadEntries(r.Rest(), count - i, m)
    {
      var key := r.GetString();
      if !r.ok {
        return false, m;
      }
      var valueOk, v := ParseValue(r);
      if !valueOk {
        return false, m;
      }
      m := Emplace(m, key, v);
    }
    ok := true;
  }

  /** One metadata blob, keeping absence apart from an empty map. */
  method ParseMetadata(r: ByteReader) returns (ok: bool, meta: Option<Metadata>)
    requires r.Valid() && r.ok
    modifies r
    ensures r.Valid() && ok == ReadMeta(old(r.Rest())).Some?
    ensures ok ==> r.ok && ReadMeta(old(r.Rest())) == Some((meta, r.Rest()))
  {
    hide FromLE, ReadInt, ReadEntries;
    meta := None;
    var present := r.GetU8();
    if !r.ok {
      return false, meta;
    }
    if present == 0 {
      return true, None;
    }
    var count := r.GetU32();
    if !r.ok {
      return false, meta;
    }
    var entriesOk, m := ParseEntries(r, count);
    if !entriesOk {
      return false, meta;
    }
    return true, Some(m);
  }

  // ---------------------------------------------------------------- the directory

  /** The length-prefixed metadata blob, read through its own bounded reader, which it must exhaust. */
  method ParseBlob(r: ByteReader) returns (ok: bool, meta: Option<Metadata>)
    requires r.Valid() && r.ok
    modifies r
    ensures r.Valid() && ok == ReadBlob(old(r.Rest())).Some?
    ensures ok ==> r.ok && ReadBlob(old(r.Rest())) == Some((meta, r.Rest()))
  {
    hide FromLE, ReadInt, ReadMeta;
    meta := None;
    var length := r.GetU32();
    if !r.ok {
      return false, meta;
    }
    var sub := r.Sub(length);
    if !r.ok {
      return false, meta;
    }
    var metaOk, parsed := ParseMetadata(sub);
    if !metaOk || sub.pos != |sub.data| {
      assert metaOk ==> sub.Rest() != [];
      return false, meta;
    }
    return true, parsed;
  }

  method ParseRecord(r: ByteReader, count: nat) returns (ok: bool, id: RecordId, slot: Slot)
    requires r.Valid() && r.ok
    modifies r
    ensures r.Valid() && ok == ReadRecord(old(r.Rest()), count).Some?
    ensures ok ==> r.ok && ReadRecord(old(r.Rest()), count) == Some(((id, slot), r.Rest()))
  {
    hide FromLE, ReadInt, ReadString, ReadBlob;
    slot := Slot(0, None);
    id := r.GetString();
    if !r.ok {
      return false, id, slot;
    }
    var at := r.GetU64();
    if !r.ok {
      return false, id, slot;
    }
    var blobOk, meta := ParseBlob(r);
    if !blobOk || id == [] || at >= count {
      return false, id, slot;
    }
    return true, id, Slot(at, meta);
  }

  /** Every directory entry; a repeated identifier is malformed. */
  method ParseDirectory(r: ByteReader, count: nat) returns (ok: bool, slots: map<RecordId, Slot>)
    requires r.Valid() && r.ok
    modifies r
    ensures r.Valid() && ok == ReadDirectory(old(r.Rest()), count, count, map[]).Some?
    ensures ok ==> r.ok && ReadDirectory(old(r.Rest()), count, count, map[]) == Some((slots, r.Rest()))
  {
    hide ReadRecord;
    slots := map[];
    ghost var whole := ReadDirectory(r.Rest(), count, count, map[]);
    for i := 0 to count
      invariant r.Valid() && r.ok
      invariant whole == ReadDirectory(r.Rest(), count - i, count, slots)
    {
      var recordOk, id, slot := ParseRecord(r, count);
      if !recordOk || id in slots {
        return false, slots;
      }
      slots := slots[id := slot];
    }
    ok := true;
  }

  /** Parsed entries have non-empty ids and vector indices in range. */
  lemma {:induction false} DirectoryEntries(s: Bytes, n: nat, count: nat, acc: map<RecordId, Slot>)
    requires ReadDirectory(s, n, count, acc).Some?
    requires forall id | id in acc :: id != [] && acc[id].vectorIndex < count
    ensures var slots := ReadDirectory(s, n, count, acc).value.0;
      forall id | id in slots :: id != [] && slots[id].vectorIndex < count
    decreases n
  {
    hide ReadRecord;
    if n > 0 {
      var p := ReadRecord(s, count).value;
      RecordInRange(s, count);
      DirectoryEntries(p.1, n - 1, count, acc[p.0.0 := p.0.1]);
    }
  }

  lemma RecordInRange(s: Bytes, count: nat)
    requires ReadRecord(s, count).Some?
    ensures var p := ReadRecord(s, count).value.0; p.0 != [] && p.1.vectorIndex < count
  {
    hide ReadString, ReadInt, ReadBlob;
  }

  // ---------------------------------------------------------------- the header

  /** Reading at a known place, and what is left. */
  lemma IntHere(s: Bytes, at: nat, n: nat)
    requires at + n <= |s|
    ensures ReadInt(s[at..], n) == Some((IntAt(s, at, n), s[at + n..]))
  {
    hide FromLE;
    assert s[at..][..n] == s[at..at + n] && s[at..][n..] == s[at + n..];
  }

  lemma ByteHere(s: Bytes, at: nat)
    requires at < |s|
    ensures ReadU8(s[at..]) == Some((s[at], s[at + 1..]))
  {
  }

  /** The fields behind the magic, up to byte 24. */
  method ParseFront(r: ByteReader, ghost s: Bytes)
      returns (version: U32, flags: U32, dimensionality: U32, metric: Byte, indexType: Byte, reserved0: Byte,
               reserved1: Byte)
    requires r.Valid() && r.ok && |s| >= HEADER_SIZE && r.Rest() == s[8..]
    modifies r
    ensures r.Valid() && r.ok && r.Rest() == s[24..]
    ensures version == IntAt(s, 8, 4) && flags == IntAt(s, 12, 4) && dimensionality == IntAt(s, 16, 4)
    ensures metric == s[20] && indexType == s[21] && reserved0 == s[22] && reserved1 == s[23]
  {
    hide FromLE, IntAt, ReadInt, ReadU8;
    IntHere(s, 8, 4);
    version := r.GetU32();
    IntHere(s, 12, 4);
    flags := r.GetU32();
    IntHere(s, 16, 4);
    dimensionality := r.GetU32();
    metric, indexType, reserved0, reserved1 := ParseBytes(r, s);
  }

  /** The four single bytes before byte 24. */
  method ParseBytes(r: ByteReader, ghost s: Bytes)
      returns (metric: Byte, indexType: Byte, reserved0: Byte, reserved1: Byte)
    requires r.Valid() && r.ok && |s| >= HEADER_SIZE && r.Rest() == s[20..]
    modifies r
    ensures r.Valid() && r.ok && r.Rest() == s[24..]
    ensures metric == s[20] && indexType == s[21] && reserved0 == s[22] && reserved1 == s[23]
  {
    hide ReadU8;
    ByteHere(s, 20);
    metric := r.GetU8();
    ByteHere(s, 21);
    indexType := r.GetU8();
    ByteHere(s, 22);
    reserved0 := r.GetU8();
    ByteHere(s, 23);
    reserved1 := r.GetU8();
  }

  /** The fields from byte 24 to the end of the header. */
  method ParseBack(r: ByteReader, ghost s: Bytes)
      returns (recordCount: U64, nameLength: U32, vectorOff: U64, vectorLen: U64, indexOff: U64, indexLen: U64,
               crc: U64)
    requires r.Valid() && r.ok && |s| >= HEADER_SIZE && r.Rest() == s[24..]
    modifies r
    ensures r.Valid() && r.ok
    ensures recordCount == IntAt(s, 24, 8) && nameLength == IntAt(s, 32, 4) && vectorOff == IntAt(s, 36, 8)
    ensures vectorLen == IntAt(s, 44, 8) && indexOff == IntAt(s, 52, 8) && indexLen == IntAt(s, 60, 8)
    ensures crc == IntAt(s, 68, 8)
  {
    hide FromLE, IntAt, ReadInt;
    IntHere(s, 24, 8);
    recordCount := r.GetU64();
    IntHere(s, 32, 4);
    nameLength := r.GetU32();
    IntHere(s, 36, 8);
    vectorOff := r.GetU64();
    IntHere(s, 44, 8);
    vectorLen := r.GetU64();
    IntHere(s, 52, 8);
    indexOff := r.GetU64();
    IntHere(s, 60, 8);
    indexLen := r.GetU64();
    IntHere(s, 68, 8);
    crc := r.GetU64();
  }

  lemma HeaderParts(s: Bytes)
    requires |s| >= HEADER_SIZE
    ensures IntAt(s, 8, 4) < TWO32 && IntAt(s, 12, 4) < TWO32 && IntAt(s, 16, 4) < TWO32 && IntAt(s, 24, 8) < TWO64
    ensures IntAt(s, 32, 4) < TWO32 && IntAt(s, 36, 8) < TWO64 && IntAt(s, 44, 8) < TWO64 && IntAt(s, 52, 8) < TWO64
    ensures IntAt(s, 60, 8) < TWO64 && IntAt(s, 68, 8) < TWO64
    ensures ReadHeader(s) == Header(IntAt(s, 8, 4), IntAt(s, 12, 4), IntAt(s, 16, 4), s[20], s[21], s[22], s[23],
      IntAt(s, 24, 8), IntAt(s, 32, 4), IntAt(s, 36, 8), IntAt(s, 44, 8), IntAt(s, 52, 8), IntAt(s, 60, 8),
      IntAt(s, 68, 8))
  {
    hide FromLE, IntAt;
    Pow256Values();
  }

  /** The header of an image that is long enough; None when the magic does not match. */
  method ParseHeader(image: Bytes) returns (h: Option<Header>)
    requires |image| >= HEADER_SIZE
    ensures h == if image[..8] == MAGIC then Some(ReadHeader(image)) else None
  {
    hide FromLE, IntAt, ReadHeader;
    var r := new ByteReader(image);
    assert image[0..] == image;
    var magic := r.GetRaw(8);
    if magic != MAGIC {
      return None;
    }
    HeaderParts(image);
    var version, flags, dimensionality, metric, indexType, reserved0, reserved1 := ParseFront(r, image);
    var recordCount, nameLength, vectorOff, vectorLen, indexOff, indexLen, crc := ParseBack(r, image);
    h := Some(Header(version, flags, dimensionality, metric, indexType, reserved0, reserved1, recordCount, nameLength,
                     vectorOff, vectorLen, indexOff, indexLen, crc));
  }
}
