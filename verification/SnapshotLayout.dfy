/** What a snapshot holds, and the byte layout of metadata. */
module SnapshotLayout {
  import opened Ordering
  import opened Identifiers
  import opened Vectors
  import opened Errors
  import opened SnapshotFormat

  type Int64 = i: int | -0x8000_0000_0000_0000 <= i < 0x8000_0000_0000_0000

  datatype MetaValue = StringValue(s: Bytes) | IntValue(i: Int64) | DoubleValue(bits: U64) | BoolValue(b: bool)

  /** An ordered map: entries are visited in ascending key order. */
  type Metadata = map<Bytes, MetaValue>

  datatype Record = Record(id: RecordId, vector: Vector, meta: Option<Metadata>)

  /** A stored record, without its identifier. */
  datatype Stored = Stored(vector: Vector, meta: Option<Metadata>)

  function VectorsIn(records: map<RecordId, Stored>): map<RecordId, Vector> {
    map id | id in records :: records[id].vector
  }

  datatype Config = Config(name: Bytes, dimensionality: nat, metric: Byte)

  /** A point-in-time view of a collection; `indexType` is 0 for none, 1 for HNSW, 2 for IVF. */
  datatype SnapshotData = SnapshotData(config: Config, indexType: Byte, records: seq<Record>, indexBlob: Bytes)

  const HEADER_SIZE: nat := 76
  const REGION_ALIGNMENT: nat := 64
  const VERSION: nat := 1
  const MAGIC: Bytes := [86, 86, 65, 85, 76, 84, 48, 49]  // "VVAULT01"

  // ---------------------------------------------------------------- metadata

  function ToU64(i: Int64): U64 { i % TWO64 }

  function ToInt64(v: U64): Int64 { if v < 0x8000_0000_0000_0000 then v else v - TWO64 }

  lemma Int64RoundTrip(i: Int64)
    ensures ToInt64(ToU64(i)) == i
  {
    if i < 0 { assert i % TWO64 == i + TWO64; }
  }

  predicate FitsValue(v: MetaValue) { v.StringValue? ==> |v.s| < TWO32 }

  function ValueBytes(v: MetaValue): Bytes {
    match v
    case StringValue(s) => [0] + (LE(|s|, 4) + s)
    case IntValue(i) => [1] + LE(ToU64(i), 8)
    case DoubleValue(bits) => [2] + LE(bits, 8)
    case BoolValue(b) => [3] + [if b then 1 else 0]
  }

  function EntriesBytes(keys: seq<Bytes>, m: Metadata): Bytes
    requires forall k | k in keys :: k in m
  {
    if keys == [] then []
    else LE(|keys[0]|, 4) + keys[0] + ValueBytes(m[keys[0]]) + EntriesBytes(keys[1..], m)
  }

  /** Absence is one zero byte, distinct from a present but empty map. */
  function MetaBytes(meta: Option<Metadata>): Bytes {
    match meta
    case None => [0]
    case Some(m) => [1] + LE(|m|, 4) + EntriesBytes(SortedIds(m.Keys), m)
  }

  ghost predicate FitsMeta(meta: Option<Metadata>) {
    && |MetaBytes(meta)| < TWO32
    && (meta.Some? ==> |meta.value| < TWO32 && forall k | k in meta.value :: |k| < TWO32 && FitsValue(meta.value[k]))
  }

  function ReadValue(s: Bytes): Read<MetaValue> {
    match ReadU8(s)
    case None => None
    case Some(tag) =>
      if tag.0 == 0 then
        match ReadString(tag.1) case None => None case Some(p) => Some((StringValue(p.0), p.1))
      else if tag.0 == 1 then
        match ReadInt64(tag.1) case None => None case Some(p) => Some((IntValue(ToInt64(p.0)), p.1))
      else if tag.0 == 2 then
        match ReadInt64(tag.1) case None => None case Some(p) => Some((DoubleValue(p.0), p.1))
      else if tag.0 == 3 then
        match ReadU8(tag.1) case None => None case Some(p) => Some((BoolValue(p.0 != 0), p.1))
      else None
  }

  /** An unsigned 64-bit read with its bound. */
  function ReadInt64(s: Bytes): Read<U64> {
    match ReadInt(s, 8)
    case None => None
    case Some(p) => (ReadIntSound(s, 8); Pow256Values(); Some((p.0, p.1)))
  }

  /** std::map::emplace: a key already present keeps its value. */
  function Emplace(m: Metadata, k: Bytes, v: MetaValue): Metadata { if k in m then m else m[k := v] }

  function ReadEntries(s: Bytes, n: nat, m: Metadata): Read<Metadata>
    decreases n
  {
    if n == 0 then Some((m, s))
    else match ReadString(s)
      case None => None
      case Some(k) =>
        match ReadValue(k.1)
        case None => None
        case Some(v) => ReadEntries(v.1, n - 1, Emplace(m, k.0, v.0))
  }

  function ReadMeta(s: Bytes): Read<Option<Metadata>> {
    match ReadU8(s)
    case None => None
    case Some(present) =>
      if present.0 == 0 then Some((None, present.1))
      else match ReadInt(present.1, 4)
        case None => None
        case Some(n) =>
          match ReadEntries(n.1, n.0, map[])
          case None => None
          case Some(p) => Some((Some(p.0), p.1))
  }

  lemma ReadValueBack(v: MetaValue, rest: Bytes)
    requires FitsValue(v)
    ensures ReadValue(ValueBytes(v) + rest) == Some((v, rest))
  {
    hide LE, FromLE, ReadInt, ReadString;
    match v
    case StringValue(str) =>
      TaggedBack(0, StringBytes(str), rest);
      ReadStringBack(str, rest);
    case IntValue(i) =>
      TaggedBack(1, LE(ToU64(i), 8), rest);
      WideBack(ToU64(i), rest);
      Int64RoundTrip(i);
    case DoubleValue(bits) =>
      TaggedBack(2, LE(bits, 8), rest);
      WideBack(bits, rest);
    case BoolValue(b) =>
      TaggedBack(3, [if b then 1 else 0], rest);
  }

  /** A tag byte and what it announces. */
  lemma TaggedBack(tag: Byte, body: Bytes, rest: Bytes)
    ensures ReadU8([tag] + body + rest) == Some((tag, body + rest))
    ensures |body| == 1 ==> ReadU8(body + rest) == Some((body[0], rest))
  {
    assert ([tag] + body + rest)[1..] == body + rest;
    if |body| == 1 { assert (body + rest)[1..] == rest; }
  }

  lemma WideBack(v: U64, rest: Bytes)
    ensures ReadInt(LE(v, 8) + rest, 8) == Some((v, rest))
  {
    Pow256Values();
    ReadBack(v, 8, rest);
  }

  /** The entries of `m` at the given keys. */
  function Picked(m: Metadata, keys: seq<Bytes>): Metadata { map k | k in keys && k in m :: m[k] }

  lemma PickedSplit(acc: Metadata, m: Metadata, keys: seq<Bytes>)
    requires keys != [] && keys[0] in m && keys[0] !in keys[1..]
    ensures acc[keys[0] := m[keys[0]]] + Picked(m, keys[1..]) == acc + Picked(m, keys)
  {
    assert keys == [keys[0]] + keys[1..];
  }

  lemma {:induction false} ReadEntriesBack(keys: seq<Bytes>, m: Metadata, acc: Metadata, rest: Bytes)
    requires Distinct(keys) && forall k | k in keys :: k in m && k !in acc && |k| < TWO32 && FitsValue(m[k])
    ensures ReadEntries(EntriesBytes(keys, m) + rest, |keys|, acc)
            == Some((acc + Picked(m, keys), rest))
    decreases |keys|
  {
    hide LE, ValueBytes, ReadString, ReadValue, FitsValue;
    if keys == [] {
      assert EntriesBytes(keys, m) + rest == rest;
      assert acc + Picked(m, keys) == acc;
    } else {
      var k := keys[0];
      assert k in keys;
      var tail := EntriesBytes(keys[1..], m) + rest;
      Regroup(StringBytes(k), ValueBytes(m[k]), EntriesBytes(keys[1..], m), rest);
      assert EntriesBytes(keys, m) == StringBytes(k) + ValueBytes(m[k]) + EntriesBytes(keys[1..], m);
      ReadStringBack(k, ValueBytes(m[k]) + tail);
      ReadValueBack(m[k], tail);
      forall j | j in keys[1..] ensures j in keys && j != k { }
      hide Picked, EntriesBytes;
      ReadEntriesBack(keys[1..], m, acc[k := m[k]], rest);
      PickedSplit(acc, m, keys);
    }
  }

  /** Metadata reads back exactly, absent and empty apart. */
  lemma ReadMetaBack(meta: Option<Metadata>, rest: Bytes)
    requires FitsMeta(meta)
    ensures ReadMeta(MetaBytes(meta) + rest) == Some((meta, rest))
  {
    var s := MetaBytes(meta) + rest;
    if meta.None? {
      assert s[1..] == rest;
    } else {
      PresentBack(meta.value, rest);
    }
  }

  lemma PresentBack(m: Metadata, rest: Bytes)
    requires |m| < TWO32 && forall k | k in m :: |k| < TWO32 && FitsValue(m[k])
    ensures ReadMeta(MetaBytes(Some(m)) + rest) == Some((Some(m), rest))
  {
    hide LE, FromLE, ReadInt, ReadEntries, EntriesBytes, SortedIds, FitsValue, Ascending, IdLess;
    var s, entries := MetaBytes(Some(m)) + rest, EntriesBytes(SortedIds(m.Keys), m) + rest;
    ReadMapBack(m, rest);
    Pow256Values();
    ReadBack(|m|, 4, entries);
    Regroup([1], LE(|m|, 4), EntriesBytes(SortedIds(m.Keys), m), rest);
  }

  lemma ReadMapBack(m: Metadata, rest: Bytes)
    requires forall k | k in m :: |k| < TWO32 && FitsValue(m[k])
    ensures ReadEntries(EntriesBytes(SortedIds(m.Keys), m) + rest, |m|, map[]) == Some((m, rest))
  {
    KeysOf(m);
    hide SortedIds, EntriesBytes, ReadEntries, FitsValue, Picked;
    ReadEntriesBack(SortedIds(m.Keys), m, map[], rest);
  }

  lemma KeysOf(m: Metadata)
    ensures var keys := SortedIds(m.Keys);
      Distinct(keys) && |keys| == |m| && (forall k | k in keys :: k in m) && map[] + Picked(m, keys) == m
  {
    var keys := SortedIds(m.Keys);
    IdOrder();
    hide IdLess;
    AscendingDistinct(keys, IdLess);
    assert |m| == |m.Keys|;
    assert map[] + Picked(m, keys) == m;
  }
}
