/** What is decoded fits the format again: encoded anew it is never longer than the bytes it was read from. */
module SnapshotSize {
  import opened Ordering
  import opened Identifiers
  import opened Errors
  import opened SnapshotFormat
  import opened SnapshotLayout
  import opened SnapshotImage
  import opened SnapshotRoundTrip
  import Persistence

  // ---------------------------------------------------------------- maps listed in key order

  /** The size of a map listed by ascending keys, given the size of an entry. */
  function Listed<V>(m: map<Bytes, V>, size: (Bytes, V) -> nat): nat { Tally(SortedIds(m.Keys), KeySize(m, size)) }

  function KeySize<V>(m: map<Bytes, V>, size: (Bytes, V) -> nat): Bytes -> nat {
    (k: Bytes) => if k in m then size(k, m[k]) else 0
  }

  /** A new entry adds its own size. */
  lemma ListedInsert<V>(m: map<Bytes, V>, k: Bytes, v: V, size: (Bytes, V) -> nat)
    requires k !in m
    ensures Listed(m[k := v], size) <= size(k, v) + Listed(m, size)
  {
    hide SortedIds;
    var more := m[k := v];
    var a, b := SortedIds(more.Keys), SortedIds(m.Keys);
    SortedIdsListed(more.Keys);
    SortedIdsListed(m.Keys);
    forall x | x in a ensures x in [k] + b {
      if x != k { assert x in Elements(a) && x in Elements(b); }
    }
    TallyWithin(a, [k] + b, KeySize(more, size));
    forall x | x in b ensures KeySize(more, size)(x) == KeySize(m, size)(x) { assert x in Elements(b); }
    SameTally(b, KeySize(more, size), KeySize(m, size));
    assert ([k] + b)[1..] == b;
  }

  lemma ListedNothing<V>(size: (Bytes, V) -> nat)
    ensures Listed(map[], size) == 0
  {
  }

  // ---------------------------------------------------------------- metadata

  /** A value is encoded in exactly the bytes it was read from. */
  lemma ValueLength(s: Bytes)
    requires ReadValue(s).Some?
    ensures var (v, rest) := ReadValue(s).value; FitsValue(v) && |ValueBytes(v)| + |rest| == |s|
  {
    hide LE, FromLE;
    if s[0] == 0 { ReadStringSound(s[1..]); }
  }

  function EntryLength(): (Bytes, MetaValue) -> nat { (k: Bytes, v: MetaValue) => 4 + |k| + |ValueBytes(v)| }

  ghost predicate FitsEntries(m: Metadata) { forall k | k in m :: |k| < TWO32 && FitsValue(m[k]) }

  /** Entries are encoded in no more bytes than they were read from: repeated keys are dropped. */
  lemma {:induction false} EntriesLength(s: Bytes, n: nat, m: Metadata)
    requires ReadEntries(s, n, m).Some? && FitsEntries(m)
    ensures var (r, rest) := ReadEntries(s, n, m).value;
      FitsEntries(r) && |r| <= |m| + n && Listed(r, EntryLength()) + |rest| <= Listed(m, EntryLength()) + |s|
    decreases n
  {
    hide ReadString, ReadValue, Listed, ValueBytes, FitsValue;
    if n > 0 {
      var k := ReadString(s).value;
      ReadStringSound(s);
      var v := ReadValue(k.1).value;
      ValueLength(k.1);
      EntriesLength(v.1, n - 1, Emplace(m, k.0, v.0));
      if k.0 !in m { ListedInsert(m, k.0, v.0, EntryLength()); }
    }
  }

  lemma {:induction false} EntriesTally(keys: seq<Bytes>, m: Metadata)
    requires forall k | k in keys :: k in m
    ensures |EntriesBytes(keys, m)| == Tally(keys, KeySize(m, EntryLength()))
  {
    hide LE, ValueBytes;
    if keys != [] { EntriesTally(keys[1..], m); }
  }

  lemma MetaTally(m: Metadata)
    ensures |MetaBytes(Some(m))| == 5 + Listed(m, EntryLength())
  {
    hide SortedIds, EntriesBytes, LE, EntryLength, KeySize;
    SortedIdsListed(m.Keys);
    EntriesTally(SortedIds(m.Keys), m);
  }

  /** Metadata is encoded in no more bytes than it was read from. */
  lemma MetaLength(s: Bytes)
    requires ReadMeta(s).Some?
    ensures var (meta, rest) := ReadMeta(s).value;
      && |MetaBytes(meta)| + |rest| <= |s|
      && (meta.Some? ==> |meta.value| < TWO32 && FitsEntries(meta.value))
  {
    hide MetaBytes, ReadEntries, Listed, LE, FromLE;
    var present := ReadU8(s).value;
    if present.0 == 0 {
      NoMeta();
    } else {
      var n := ReadInt(present.1, 4).value;
      ReadIntSound(present.1, 4);
      Pow256Values();
      EntriesLength(n.1, n.0, map[]);
      ListedNothing<MetaValue>(EntryLength());
      MetaTally(ReadEntries(n.1, n.0, map[]).value.0);
    }
  }

  lemma NoMeta()
    ensures |MetaBytes(None)| == 1
  {
  }

  lemma BlobLength(s: Bytes)
    requires ReadBlob(s).Some?
    ensures var (meta, rest) := ReadBlob(s).value; FitsMeta(meta) && 4 + |MetaBytes(meta)| + |rest| <= |s|
  {
    hide ReadMeta, MetaBytes, ReadInt, FitsValue;
    var n := ReadInt(s, 4).value;
    ReadIntSound(s, 4);
    Pow256Values();
    MetaLength(n.1[..n.0]);
  }

  // ---------------------------------------------------------------- the directory

  function EntrySize(): (RecordId, Slot) -> nat { (id: RecordId, slot: Slot) => 16 + |id| + |MetaBytes(slot.meta)| }

  /** Slots of a count of vectors, with everything in range. */
  ghost predicate FitsSlots(slots: map<RecordId, Slot>, count: nat) {
    forall id | id in slots :: FitsSlot(id, slots[id], count)
  }

  ghost predicate FitsSlot(id: RecordId, slot: Slot, count: nat) {
    0 < |id| < TWO32 && slot.vectorIndex < count && FitsMeta(slot.meta)
  }

  lemma RecordLength(s: Bytes, count: nat)
    requires ReadRecord(s, count).Some?
    ensures var (entry, rest) := ReadRecord(s, count).value;
      FitsSlot(entry.0, entry.1, count) && EntrySize()(entry.0, entry.1) + |rest| <= |s|
  {
    hide ReadString, ReadBlob, MetaBytes, FitsMeta, FromLE;
    var id := ReadString(s).value;
    ReadStringSound(s);
    BlobLength(ReadInt(id.1, 8).value.1);
  }

  /** Directory entries are encoded in no more bytes than they were read from. */
  lemma {:induction false} DirectorySize(s: Bytes, n: nat, count: nat, acc: map<RecordId, Slot>)
    requires ReadDirectory(s, n, count, acc).Some? && FitsSlots(acc, count)
    ensures var (slots, rest) := ReadDirectory(s, n, count, acc).value;
      && FitsSlots(slots, count) && |slots| == |acc| + n
      && Listed(slots, EntrySize()) + |rest| <= Listed(acc, EntrySize()) + |s|
    decreases n
  {
    hide ReadRecord, Listed, FitsSlot, EntrySize;
    if n > 0 {
      var p := ReadRecord(s, count).value;
      RecordLength(s, count);
      ListedInsert(acc, p.0.0, p.0.1, EntrySize());
      DirectorySize(p.1, n - 1, count, acc[p.0.0 := p.0.1]);
    }
  }

  /** The size of a record's directory entry does not depend on its place. */
  lemma RecordBytesLength(rec: Record, i: nat)
    ensures |RecordBytes(rec, i)| == 16 + |rec.id| + |MetaBytes(rec.meta)|
  {
    hide MetaBytes;
  }

  lemma {:induction false} DirectoryTally(recs: seq<Record>, i: nat, ids: seq<RecordId>, slots: map<RecordId, Slot>)
    requires |recs| == |ids| && forall j | 0 <= j < |recs| ::
      recs[j].id == ids[j] && ids[j] in slots && recs[j].meta == slots[ids[j]].meta
    ensures |DirectoryBytes(recs, i)| == Tally(ids, KeySize(slots, EntrySize()))
    decreases |recs|
  {
    hide RecordBytes, MetaBytes;
    if recs != [] {
      RecordBytesLength(recs[0], i);
      DirectoryTally(recs[1..], i + 1, ids[1..], slots);
    }
  }

  /** The directory of the records read from an image is no longer than the bytes behind the name. */
  lemma DirectoryAgain(s: Bytes, h: Header, slots: map<RecordId, Slot>)
    requires |s| >= HEADER_SIZE && HeaderOk(h, |s|) && ReadBody(s, h) == Some(slots)
    ensures HEADER_SIZE + h.nameLength <= |s| && FitsSlots(slots, h.recordCount) && |slots| == h.recordCount
    ensures |DirectoryBytes(RecordList(RecordsIn(s, h, slots)), 0)| <= |s| - HEADER_SIZE - h.nameLength
  {
    hide HeaderOk, ReadDirectory, Listed, SortedIds, EntrySize, SlotVector, DirectoryBytes, RecordList, RecordsIn;
    Persistence.HeaderBounds(s, h);
    DirectorySize(s[HEADER_SIZE + h.nameLength..], h.recordCount, h.recordCount, map[]);
    ListedNothing<Slot>(EntrySize());
    ListedDirectory(s, h, slots);
  }

  lemma ListedDirectory(s: Bytes, h: Header, slots: map<RecordId, Slot>)
    requires HeaderOk(h, |s|)
    ensures |DirectoryBytes(RecordList(RecordsIn(s, h, slots)), 0)| == Listed(slots, EntrySize())
  {
    hide HeaderOk, SortedIds, EntrySize, SlotVector, DirectoryBytes, KeySize;
    var records := RecordsIn(s, h, slots);
    assert records.Keys == slots.Keys;
    SortedIdsListed(slots.Keys);
    DirectoryTally(RecordList(records), 0, SortedIds(slots.Keys), slots);
  }

  // ---------------------------------------------------------------- the whole view

  /** A file below this size can always be written again. */
  const RESAVE_LIMIT: nat := 0x4000_0000_0000_0000

  lemma RecordsAgain(s: Bytes, h: Header, slots: map<RecordId, Slot>)
    requires HeaderOk(h, |s|) && FitsSlots(slots, h.recordCount)
    ensures var recs := RecordList(RecordsIn(s, h, slots));
      && |recs| == |slots| && (forall r | r in recs :: FitsRecord(r) && |r.vector| == h.dimensionality)
      && forall i, j | 0 <= i < j < |recs| :: IdLess(recs[i].id, recs[j].id)
  {
    var records := RecordsIn(s, h, slots);
    assert records.Keys == slots.Keys;
    SortedIdsListed(slots.Keys);
    hide HeaderOk, SlotVector, FitsMeta, IdLess, SortedIds;
    var ids, recs := SortedIds(slots.Keys), RecordList(records);
    forall i | 0 <= i < |recs| ensures FitsRecord(recs[i]) && |recs[i].vector| == h.dimensionality {
      assert FitsSlot(ids[i], slots[ids[i]], h.recordCount);
      Persistence.SlotLength(s, h, slots[ids[i]]);
    }
    assert Ascending(ids, IdLess);
  }

  /** The decoded records under an index region that is no longer than the one read fit the format again. */
  lemma ViewAgain(s: Bytes, blob: Bytes)
    requires Decode(s).Success? && |s| < RESAVE_LIMIT && |blob| <= |Decode(s).value.region|
    requires blob == [] <==> Decode(s).value.indexType == 0
    ensures var l := Decode(s).value; Storable(SourceOf(Loaded(l.config, l.indexType, l.records, blob)))
  {
    hide ReadHeader, CrcOf, ReadBody, RecordsIn, IndexOk, RecordList, DirectoryBytes, VectorsBytes, FitsRecord,
      FitsSlots, IdLess, VectorsIn;
    var h, l := ReadHeader(s), Decode(s).value;
    var slots := ReadBody(s, h).value;
    DirectoryAgain(s, h, slots);
    RecordsAgain(s, h, slots);
    var recs := RecordList(l.records);
    VectorsLength(recs, h.dimensionality);
    Commute(4 * h.dimensionality, |recs|);
    var d := SourceOf(Loaded(l.config, l.indexType, l.records, blob));
    assert |VectorsBytes(recs)| == h.vectorLen;
    assert |Body(d)| < 64 + 3 * |s|;
  }

  /** Whatever is decoded from a file below that size can be written again. */
  lemma DecodedStorable(s: Bytes)
    requires Decode(s).Success? && |s| < RESAVE_LIMIT
    ensures Storable(SourceOf(Decode(s).value))
  {
    RegionKept(s);
    hide Decode, Storable, RecordList;
    ViewAgain(s, Decode(s).value.region);
  }

  lemma RegionKept(s: Bytes)
    requires Decode(s).Success?
    ensures Decode(s).value.region == [] <==> Decode(s).value.indexType == 0
  {
    hide ReadHeader, CrcOf, ReadBody, RecordsIn, IndexOk;
  }
}
