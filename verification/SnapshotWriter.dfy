/** Encoding a collection view: the loops that append a snapshot image. */
module SnapshotWriter {
  import opened Ordering
  import opened Identifiers
  import opened Vectors
  import opened Errors
  import opened SnapshotFormat
  import opened SnapshotLayout
  import opened SnapshotImage
  import opened SnapshotRoundTrip
  import Crc64

  // ---------------------------------------------------------------- metadata

  method WriteValue(w: ByteWriter, v: MetaValue)
    requires FitsValue(v)
    modifies w
    ensures w.buffer == old(w.buffer) + ValueBytes(v)
  {
    hide LE, StringBytes, ToU64;
    ghost var start := w.buffer;
    match v {
      case StringValue(s) =>
        w.PutU8(0);
        w.PutString(s);
        Assoc(start, [0], StringBytes(s));
        TaggedString(s);
      case IntValue(i) =>
        w.PutU8(1);
        w.PutU64(ToU64(i));
        Assoc(start, [1], LE(ToU64(i), 8));
      case DoubleValue(bits) =>
        w.PutU8(2);
        w.PutU64(bits);
        Assoc(start, [2], LE(bits, 8));
      case BoolValue(b) =>
        w.PutU8(3);
        w.PutU8(if b then 1 else 0);
        Assoc(start, [3], [if b then 1 else 0]);
    }
  }

  lemma TaggedString(s: Bytes)
    requires |s| < TWO32
    ensures ValueBytes(StringValue(s)) == [0] + StringBytes(s)
  {
  }

  function EntryBytes(k: Bytes, v: MetaValue): Bytes { LE(|k|, 4) + k + ValueBytes(v) }

  lemma {:induction false} EntriesSnoc(keys: seq<Bytes>, k: Bytes, m: Metadata)
    requires (forall j | j in keys :: j in m) && k in m
    ensures forall j | j in keys + [k] :: j in m
    ensures EntriesBytes(keys + [k], m) == EntriesBytes(keys, m) + EntryBytes(k, m[k])
    decreases |keys|
  {
    hide LE, ValueBytes;
    if keys == [] {
      assert (keys + [k])[1..] == [];
      assert EntriesBytes([], m) == [];
      assert EntryBytes(k, m[k]) + [] == EntryBytes(k, m[k]) == [] + EntryBytes(k, m[k]);
    } else {
      EntriesSnoc(keys[1..], k, m);
      assert (keys + [k])[1..] == keys[1..] + [k];
      Assoc(EntryBytes(keys[0], m[keys[0]]), EntriesBytes(keys[1..], m), EntryBytes(k, m[k]));
    }
  }

  method WriteEntry(w: ByteWriter, k: Bytes, v: MetaValue)
    requires |k| < TWO32 && FitsValue(v)
    modifies w
    ensures w.buffer == old(w.buffer) + EntryBytes(k, v)
  {
    hide LE, ValueBytes;
    w.PutString(k);
    WriteValue(w, v);
    Assoc(old(w.buffer), StringBytes(k), ValueBytes(v));
  }

  /** The entries of a metadata map at the given keys. */
  method WriteEntries(w: ByteWriter, keys: seq<Bytes>, m: Metadata)
    requires forall k | k in keys :: k in m && |k| < TWO32 && FitsValue(m[k])
    modifies w
    ensures w.buffer == old(w.buffer) + EntriesBytes(keys, m)
  {
    hide EntryBytes, EntriesBytes, FitsValue;
    ghost var start := w.buffer;
    NoEntries(m, keys[..0]);
    for i := 0 to |keys|
      invariant w.buffer == start + EntriesBytes(keys[..i], m)
    {
      assert keys[i] in keys && keys[..i + 1] == keys[..i] + [keys[i]];
      EntriesSnoc(keys[..i], keys[i], m);
      WriteEntry(w, keys[i], m[keys[i]]);
      Assoc(start, EntriesBytes(keys[..i], m), EntryBytes(keys[i], m[keys[i]]));
    }
    assert keys[..|keys|] == keys;
  }

  lemma NoEntries(m: Metadata, none: seq<Bytes>)
    requires none == []
    ensures EntriesBytes(none, m) == []
  {
  }

  /** The metadata blob of one record. */
  method WriteMetadata(w: ByteWriter, meta: Option<Metadata>)
    requires FitsMeta(meta)
    modifies w
    ensures w.buffer == old(w.buffer) + MetaBytes(meta)
  {
    ghost var start := w.buffer;
    if meta.None? {
      w.PutU8(0);
      return;
    }
    var m := meta.value;
    MetaParts(m);
    KeysOf(m);
    assert |m| < TWO32 && forall k | k in m :: |k| < TWO32 && FitsValue(m[k]);
    hide LE, EntriesBytes, MetaBytes, FitsValue, Picked, FitsMeta;
    var keys := SortedIds(m.Keys);
    hide SortedIds;
    w.PutU8(1);
    w.PutU32(|m|);
    WriteEntries(w, keys, m);
    MetaGrouped(start, LE(|m|, 4), EntriesBytes(keys, m));
  }

  lemma MetaParts(m: Metadata)
    ensures (forall k | k in SortedIds(m.Keys) :: k in m)
    ensures MetaBytes(Some(m)) == [1] + LE(|m|, 4) + EntriesBytes(SortedIds(m.Keys), m)
  {
    hide LE, EntriesBytes, IdLess;
  }

  lemma MetaGrouped(start: Bytes, count: Bytes, entries: Bytes)
    ensures start + [1] + count + entries == start + ([1] + count + entries)
  {
  }

  // ---------------------------------------------------------------- the directory

  lemma {:induction false} DirectorySnoc(recs: seq<Record>, rec: Record, i: nat)
    ensures DirectoryBytes(recs + [rec], i) == DirectoryBytes(recs, i) + RecordBytes(rec, i + |recs|)
    decreases |recs|
  {
    hide RecordBytes;
    if recs == [] {
      assert (recs + [rec])[1..] == [];
      assert DirectoryBytes([], i + 1) == [];
      assert RecordBytes(rec, i) + [] == RecordBytes(rec, i) == [] + RecordBytes(rec, i);
    } else {
      DirectorySnoc(recs[1..], rec, i + 1);
      assert (recs + [rec])[1..] == recs[1..] + [rec];
      Assoc(RecordBytes(recs[0], i), DirectoryBytes(recs[1..], i + 1), RecordBytes(rec, i + |recs|));
    }
  }

  method WriteRecord(w: ByteWriter, rec: Record, i: U64)
    requires FitsRecord(rec)
    modifies w
    ensures w.buffer == old(w.buffer) + RecordBytes(rec, i)
  {
    hide LE, MetaBytes;
    ghost var start := w.buffer;
    w.PutString(rec.id);
    w.PutU64(i);
    var meta := new ByteWriter();
    WriteMetadata(meta, rec.meta);
    assert meta.buffer == MetaBytes(rec.meta);
    w.PutU32(|meta.buffer|);
    w.PutRaw(meta.buffer);
    RecordGrouped(start, LE(|rec.id|, 4) + rec.id, LE(i, 8), LE(|MetaBytes(rec.meta)|, 4), MetaBytes(rec.meta));
  }

  lemma RecordGrouped(start: Bytes, id: Bytes, at: Bytes, length: Bytes, meta: Bytes)
    ensures start + id + at + length + meta == start + (id + at + (length + meta))
  {
  }

  method WriteDirectory(w: ByteWriter, recs: seq<Record>)
    requires |recs| < TWO64 && forall r | r in recs :: FitsRecord(r)
    modifies w
    ensures w.buffer == old(w.buffer) + DirectoryBytes(recs, 0)
  {
    hide RecordBytes, FitsRecord;
    ghost var start := w.buffer;
    for i := 0 to |recs|
      invariant w.buffer == start + DirectoryBytes(recs[..i], 0)
    {
      assert recs[i] in recs && recs[..i + 1] == recs[..i] + [recs[i]];
      DirectorySnoc(recs[..i], recs[i], 0);
      WriteRecord(w, recs[i], i);
      Assoc(start, DirectoryBytes(recs[..i], 0), RecordBytes(recs[i], i));
    }
    assert recs[..|recs|] == recs;
  }

  /** Zero bytes until the next file offset is a multiple of the alignment. */
  method WritePadding(w: ByteWriter)
    modifies w
    ensures w.buffer == old(w.buffer) + Padding(PadLength(HEADER_SIZE + |old(w.buffer)|))
  {
    ghost var start := w.buffer;
    ghost var n := PadLength(HEADER_SIZE + |start|);
    ghost var i: nat := 0;
    while (HEADER_SIZE + |w.buffer|) % REGION_ALIGNMENT != 0
      invariant i <= n && w.buffer == start + Padding(i)
      decreases n - i
    {
      PaddingEnds(HEADER_SIZE + |start|, i);
      w.PutU8(0);
      assert Padding(i + 1) == Padding(i) + [0];
      Assoc(start, Padding(i), [0]);
      i := i + 1;
    }
    PaddingEnds(HEADER_SIZE + |start|, i);
  }

  /** The padded offset is aligned only at the pad length. */
  lemma PaddingEnds(offset: nat, i: nat)
    requires i <= PadLength(offset)
    ensures (offset + i) % REGION_ALIGNMENT == 0 <==> i == PadLength(offset)
  {
    if i < PadLength(offset) {
      var r := offset % REGION_ALIGNMENT;
      assert offset == REGION_ALIGNMENT * (offset / REGION_ALIGNMENT) + r;
      assert 0 < r + i < REGION_ALIGNMENT;
      assert (offset + i) % REGION_ALIGNMENT == r + i;
    }
  }

  // ---------------------------------------------------------------- the vector region

  lemma {:induction false} VectorSnoc(v: Vector, x: Float32)
    ensures VectorBytes(v + [x]) == VectorBytes(v) + LE(x, 4)
  {
    hide LE;
    if v == [] {
      assert (v + [x])[1..] == [] && VectorBytes([]) == [];
      assert LE(x, 4) + [] == LE(x, 4) == [] + LE(x, 4);
    } else {
      VectorSnoc(v[1..], x);
      assert (v + [x])[1..] == v[1..] + [x];
      Assoc(LE(v[0], 4), VectorBytes(v[1..]), LE(x, 4));
    }
  }

  lemma {:induction false} VectorsSnoc(recs: seq<Record>, rec: Record)
    ensures VectorsBytes(recs + [rec]) == VectorsBytes(recs) + VectorBytes(rec.vector)
  {
    hide VectorBytes;
    if recs == [] {
      assert (recs + [rec])[1..] == [] && VectorsBytes([]) == [];
      assert VectorBytes(rec.vector) + [] == VectorBytes(rec.vector) == [] + VectorBytes(rec.vector);
    } else {
      VectorsSnoc(recs[1..], rec);
      assert (recs + [rec])[1..] == recs[1..] + [rec];
      Assoc(VectorBytes(recs[0].vector), VectorsBytes(recs[1..]), VectorBytes(rec.vector));
    }
  }

  method WriteVector(w: ByteWriter, v: Vector, dim: nat)
    requires |v| == dim
    modifies w
    ensures w.buffer == old(w.buffer) + VectorBytes(v)
  {
    hide LE;
    ghost var start := w.buffer;
    for c := 0 to dim
      invariant w.buffer == start + VectorBytes(v[..c])
    {
      assert v[..c + 1] == v[..c] + [v[c]];
      VectorSnoc(v[..c], v[c]);
      w.PutU32(v[c]);
      Assoc(start, VectorBytes(v[..c]), LE(v[c], 4));
    }
    assert v[..dim] == v;
  }

  method WriteVectors(w: ByteWriter, recs: seq<Record>, dim: nat)
    requires forall r | r in recs :: |r.vector| == dim
    modifies w
    ensures w.buffer == old(w.buffer) + VectorsBytes(recs)
  {
    hide VectorBytes;
    ghost var start := w.buffer;
    for i := 0 to |recs|
      invariant w.buffer == start + VectorsBytes(recs[..i])
    {
      assert recs[i] in recs && recs[..i + 1] == recs[..i] + [recs[i]];
      VectorsSnoc(recs[..i], recs[i]);
      WriteVector(w, recs[i].vector, dim);
      Assoc(start, VectorsBytes(recs[..i]), VectorBytes(recs[i].vector));
    }
    assert recs[..|recs|] == recs;
  }

  // ---------------------------------------------------------------- header and checksum

  /** The checksum of the content as a number. */
  method Checksum(content: Bytes) returns (crc: U64)
    ensures crc == CrcOf(content)
  {
    var table := Crc64.BuildTable();
    var state := Crc64.Crc64Ecma(table, content, Crc64.Zeros(64));
    Crc64.NumberBound(state);
    PowerOf64();
    crc := Crc64.NumberOf(state);
  }

  method WriteFront(w: ByteWriter, h: Header)
    requires w.buffer == []
    modifies w
    ensures w.buffer == FrontBytes(h)
  {
    hide LE;
    w.PutRaw(MAGIC);
    w.PutU32(h.version);
    w.PutU32(h.flags);
    w.PutU32(h.dimensionality);
    w.PutU8(h.metric);
    w.PutU8(h.indexType);
    w.PutU8(h.reserved0);
    w.PutU8(h.reserved1);
    assert [] + MAGIC == MAGIC;
  }

  method WriteBack(w: ByteWriter, h: Header)
    modifies w
    ensures w.buffer == old(w.buffer) + BackBytes(h)
  {
    hide LE;
    ghost var start := w.buffer;
    w.PutU64(h.recordCount);
    w.PutU32(h.nameLength);
    w.PutU64(h.vectorOff);
    w.PutU64(h.vectorLen);
    w.PutU64(h.indexOff);
    w.PutU64(h.indexLen);
    w.PutU64(h.crc);
    BackGrouped(start, LE(h.recordCount, 8), LE(h.nameLength, 4), LE(h.vectorOff, 8), LE(h.vectorLen, 8),
                LE(h.indexOff, 8), LE(h.indexLen, 8), LE(h.crc, 8));
  }

  lemma BackGrouped(s: Bytes, a: Bytes, b: Bytes, c: Bytes, d: Bytes, e: Bytes, f: Bytes, g: Bytes)
    ensures s + a + b + c + d + e + f + g == s + (a + b + c + d + e + f + g)
  {
    Assoc(s, a, b);
    Assoc(s, a + b, c);
    Assoc(s, a + b + c, d);
    Assoc(s, a + b + c + d, e);
    Assoc(s, a + b + c + d + e, f);
    Assoc(s, a + b + c + d + e + f, g);
  }

  // ---------------------------------------------------------------- the image

  /** Name, directory and padding: what precedes the vector region. */
  function Lead(d: SnapshotData): Bytes {
    d.config.name + DirectoryOf(d) + Padding(PadLength(HEADER_SIZE + |d.config.name| + |DirectoryOf(d)|))
  }

  lemma LeadParts(d: SnapshotData)
    ensures HEADER_SIZE + |Lead(d)| == VectorOff(d) && Body(d) == Lead(d) + VectorsBytes(d.records) + d.indexBlob
  {
    hide VectorsBytes, DirectoryOf, PadLength, Padding;
    PaddingLength(HEADER_SIZE + |d.config.name| + |DirectoryOf(d)|);
  }

  method WriteLead(w: ByteWriter, d: SnapshotData)
    requires w.buffer == [] && |d.records| < TWO64 && forall r | r in d.records :: FitsRecord(r)
    modifies w
    ensures w.buffer == Lead(d)
  {
    hide FitsRecord, DirectoryBytes, PadLength, Padding;
    w.PutRaw(d.config.name);
    WriteDirectory(w, d.records);
    EmptyFront(d.config.name, DirectoryBytes(d.records, 0));
    WritePadding(w);
  }

  /** Everything after the header, and where the vector and index regions start. */
  method WriteBody(d: SnapshotData) returns (body: Bytes, vectorOff: nat, indexOff: nat)
    requires Storable(d)
    ensures body == Body(d) && vectorOff == VectorOff(d) && indexOff == VectorOff(d) + |VectorsBytes(d.records)|
  {
    assert forall r | r in d.records :: |r.vector| == d.config.dimensionality;
    hide Storable, FitsRecord, VectorsBytes, VectorOff, Body, Lead;
    RecordsFit(d);
    LeadParts(d);
    var w := new ByteWriter();
    WriteLead(w, d);
    vectorOff := HEADER_SIZE + |w.buffer|;
    WriteVectors(w, d.records, d.config.dimensionality);
    indexOff := HEADER_SIZE + |w.buffer|;
    w.PutRaw(d.indexBlob);
    body := w.buffer;
  }

  lemma EmptyFront(name: Bytes, directory: Bytes)
    ensures [] + name + directory == name + directory && |name + directory| == |name| + |directory|
  {
    assert [] + name == name;
  }

  lemma PaddingLength(offset: nat)
    ensures |Padding(PadLength(offset))| == PadLength(offset)
  {
  }

  /** The image of a collection view. */
  method Encode(d: SnapshotData) returns (image: Bytes)
    requires Storable(d)
    ensures image == Image(d)
  {
    HeaderFields(d);
    BodyLengths(d);
    var dim, count := d.config.dimensionality, |d.records|;
    hide Body, VectorOff, VectorsBytes, CrcOf, Storable, DirectoryOf;
    var body, vectorOff, indexOff := WriteBody(d);
    var crc := Checksum(body);
    hide FrontBytes, BackBytes, Image;
    var h := Header(VERSION, 0, dim, d.config.metric, d.indexType, 0, 0, count, |d.config.name|,
                    vectorOff, count * (4 * dim), indexOff, |d.indexBlob|, crc);
    assert h == HeaderFor(d);
    var w := new ByteWriter();
    WriteFront(w, h);
    WriteBack(w, h);
    image := w.buffer + body;
    ImageParts(d);
  }

  lemma ImageParts(d: SnapshotData)
    requires Storable(d)
    ensures Image(d) == FrontBytes(HeaderFor(d)) + BackBytes(HeaderFor(d)) + Body(d)
  {
    hide FrontBytes, BackBytes, HeaderFor, Body, Storable;
  }
}
