/** The record directory and the vector region of a snapshot, and the parsers that invert them. */
module SnapshotImage {
  import opened Ordering
  import opened Vectors
  import opened Errors
  import opened SnapshotFormat
  import opened SnapshotLayout

  // ---------------------------------------------------------------- the record directory

  /** A directory entry as parsed: the place of the vector in the vector region, and the metadata. */
  datatype Slot = Slot(vectorIndex: nat, meta: Option<Metadata>)

  function RecordBytes(rec: Record, i: nat): Bytes {
    LE(|rec.id|, 4) + rec.id + LE(i, 8) + (LE(|MetaBytes(rec.meta)|, 4) + MetaBytes(rec.meta))
  }

  /** The entries of records i, i + 1, ... */
  function DirectoryBytes(recs: seq<Record>, i: nat): Bytes
    decreases |recs|
  {
    if recs == [] then [] else RecordBytes(recs[0], i) + DirectoryBytes(recs[1..], i + 1)
  }

  ghost predicate FitsRecord(rec: Record) { 0 < |rec.id| < TWO32 && FitsMeta(rec.meta) }

  /** The metadata blob in front of `s`, which it must fill. */
  function ReadBlob(s: Bytes): Read<Option<Metadata>> {
    match ReadInt(s, 4)
    case None => None
    case Some(n) =>
      match ReadRaw(n.1, n.0)
      case None => None
      case Some(blob) =>
        match ReadMeta(blob.0)
        case None => None
        case Some(meta) => if meta.1 != [] then None else Some((meta.0, blob.1))
  }

  /** One directory entry: a non-empty id, a vector index in range, a well-formed metadata blob. */
  function ReadRecord(s: Bytes, count: nat): Read<(RecordId, Slot)> {
    match ReadString(s)
    case None => None
    case Some(id) =>
      match ReadInt(id.1, 8)
      case None => None
      case Some(at) =>
        match ReadBlob(at.1)
        case None => None
        case Some(meta) =>
          if id.0 == [] || at.0 >= count then None else Some(((id.0, Slot(at.0, meta.0)), meta.1))
  }

  /** `n` entries added to `acc`; a repeated id is malformed. */
  function ReadDirectory(s: Bytes, n: nat, count: nat, acc: map<RecordId, Slot>): Read<map<RecordId, Slot>>
    decreases n
  {
    if n == 0 then Some((acc, s))
    else match ReadRecord(s, count)
      case None => None
      case Some(p) =>
        if p.0.0 in acc then None else ReadDirectory(p.1, n - 1, count, acc[p.0.0 := p.0.1])
  }

  /** The slots of records i, i + 1, ... added to `acc`. */
  function SlotsOf(recs: seq<Record>, i: nat, acc: map<RecordId, Slot>): map<RecordId, Slot>
    decreases |recs|
  {
    if recs == [] then acc else SlotsOf(recs[1..], i + 1, acc[recs[0].id := Slot(i, recs[0].meta)])
  }

  lemma ReadBlobBack(meta: Option<Metadata>, rest: Bytes)
    requires FitsMeta(meta)
    ensures ReadBlob(LE(|MetaBytes(meta)|, 4) + MetaBytes(meta) + rest) == Some((meta, rest))
  {
    hide LE, FromLE, ReadInt, ReadMeta, MetaBytes;
    var blob := MetaBytes(meta);
    assert LE(|blob|, 4) + blob + rest == LE(|blob|, 4) + (blob + rest);
    Pow256Values();
    ReadBack(|blob|, 4, blob + rest);
    assert (blob + rest)[..|blob|] == blob && (blob + rest)[|blob|..] == rest;
    ReadMetaBack(meta, []);
    assert blob + [] == blob;
  }

  lemma ReadRecordBack(rec: Record, i: nat, count: nat, rest: Bytes)
    requires FitsRecord(rec) && i < count < TWO64
    ensures ReadRecord(RecordBytes(rec, i) + rest, count) == Some(((rec.id, Slot(i, rec.meta)), rest))
  {
    hide LE, FromLE, ReadInt, ReadMeta, MetaBytes, ReadString, FitsMeta, ReadBlob;
    var blob := LE(|MetaBytes(rec.meta)|, 4) + MetaBytes(rec.meta);
    Regroup(StringBytes(rec.id), LE(i, 8), blob, rest);
    ReadStringBack(rec.id, LE(i, 8) + (blob + rest));
    Pow256Values();
    ReadBack(i, 8, blob + rest);
    ReadBlobBack(rec.meta, rest);
  }

  lemma {:induction false} ReadDirectoryBack(recs: seq<Record>, i: nat, count: nat, acc: map<RecordId, Slot>,
                             rest: Bytes)
    requires (forall r | r in recs :: FitsRecord(r) && r.id !in acc) && i + |recs| <= count < TWO64
    requires forall j, k | 0 <= j < k < |recs| :: recs[j].id != recs[k].id
    ensures ReadDirectory(DirectoryBytes(recs, i) + rest, |recs|, count, acc) == Some((SlotsOf(recs, i, acc), rest))
    decreases |recs|
  {
    hide RecordBytes, ReadRecord, FitsRecord;
    if recs == [] {
      assert DirectoryBytes(recs, i) + rest == rest;
    } else {
      var tail := DirectoryBytes(recs[1..], i + 1) + rest;
      Assoc(RecordBytes(recs[0], i), DirectoryBytes(recs[1..], i + 1), rest);
      assert recs[0] in recs;
      ReadRecordBack(recs[0], i, count, tail);
      forall r | r in recs[1..] ensures r in recs && r.id != recs[0].id {
        var k :| 0 <= k < |recs[1..]| && recs[1..][k] == r;
        assert recs[k + 1] == r;
      }
      ReadDirectoryBack(recs[1..], i + 1, count, acc[recs[0].id := Slot(i, recs[0].meta)], rest);
    }
  }

  /** What the directory of distinct records holds: each id at its own place. */
  lemma {:induction false} SlotsOfFacts(recs: seq<Record>, i: nat, acc: map<RecordId, Slot>)
    requires forall j, k | 0 <= j < k < |recs| :: recs[j].id != recs[k].id
    ensures forall id :: id in SlotsOf(recs, i, acc) <==> id in acc || exists j | 0 <= j < |recs| :: recs[j].id == id
    ensures forall j | 0 <= j < |recs| :: SlotsOf(recs, i, acc)[recs[j].id] == Slot(i + j, recs[j].meta)
    ensures forall id | id in acc && (forall j | 0 <= j < |recs| :: recs[j].id != id) ::
      SlotsOf(recs, i, acc)[id] == acc[id]
    decreases |recs|
  {
    if recs != [] {
      var acc' := acc[recs[0].id := Slot(i, recs[0].meta)];
      SlotsOfFacts(recs[1..], i + 1, acc');
      var slots := SlotsOf(recs, i, acc);
      forall j | 0 <= j < |recs| ensures recs[j].id in slots && slots[recs[j].id] == Slot(i + j, recs[j].meta) {
        if j > 0 {
          assert recs[1..][j - 1] == recs[j];
        } else {
          assert recs[0].id in acc' && forall k | 0 <= k < |recs[1..]| :: recs[1..][k].id != recs[0].id;
        }
      }
      forall id | id in slots ensures id in acc || exists j | 0 <= j < |recs| :: recs[j].id == id {
        if id !in acc' {
          var j :| 0 <= j < |recs[1..]| && recs[1..][j].id == id;
          assert recs[j + 1].id == id;
        }
      }
    }
  }

  // ---------------------------------------------------------------- the vector region

  function VectorBytes(v: Vector): Bytes { if v == [] then [] else LE(v[0], 4) + VectorBytes(v[1..]) }

  function VectorsBytes(recs: seq<Record>): Bytes {
    if recs == [] then [] else VectorBytes(recs[0].vector) + VectorsBytes(recs[1..])
  }

  /** `dim` components read in place. */
  function VectorAt(s: Bytes, dim: nat): Vector
    requires 4 * dim <= |s|
    decreases dim
  {
    if dim == 0 then []
    else
      LEFromLE(s[..4]);
      Pow256Values();
      [FromLE(s[..4])] + VectorAt(s[4..], dim - 1)
  }

  lemma {:induction false} VectorBack(v: Vector, rest: Bytes)
    ensures |VectorBytes(v)| == 4 * |v|
    ensures VectorAt(VectorBytes(v) + rest, |v|) == v
    decreases |v|
  {
    hide LE, FromLE;
    if v != [] {
      var tail := VectorBytes(v[1..]) + rest;
      VectorBack(v[1..], rest);
      Assoc(LE(v[0], 4), VectorBytes(v[1..]), rest);
      ComponentBack(v[0], tail);
      assert v == [v[0]] + v[1..];
    }
  }

  lemma ComponentBack(x: Float32, tail: Bytes)
    ensures FromLE((LE(x, 4) + tail)[..4]) == x && (LE(x, 4) + tail)[4..] == tail
  {
    Pow256Values();
    FromLELE(x, 4);
    hide LE, FromLE;
    assert (LE(x, 4) + tail)[..4] == LE(x, 4);
  }

  lemma OneMore(a: nat, n: nat)
    requires n >= 1
    ensures a * n == a + a * (n - 1) && a * (n - 1) >= 0
  {
  }

  /** Vector `i` is found at its index times the stride. */
  lemma {:induction false} VectorsBack(recs: seq<Record>, dim: nat, i: nat, rest: Bytes)
    requires (forall r | r in recs :: |r.vector| == dim) && i < |recs|
    ensures |VectorsBytes(recs)| == 4 * dim * |recs| && 0 <= 4 * dim * i <= |VectorsBytes(recs) + rest| - 4 * dim
    ensures VectorAt((VectorsBytes(recs) + rest)[4 * dim * i..], dim) == recs[i].vector
    decreases |recs|
  {
    hide VectorAt, VectorBytes;
    var tail := VectorsBytes(recs[1..]) + rest;
    assert recs[0] in recs;
    VectorBack(recs[0].vector, tail);
    VectorsLength(recs, dim);
    Assoc(VectorBytes(recs[0].vector), VectorsBytes(recs[1..]), rest);
    if i == 0 {
      assert (VectorsBytes(recs) + rest)[0..] == VectorsBytes(recs) + rest;
      OneMore(4 * dim, |recs|);
    } else {
      forall r | r in recs[1..] ensures |r.vector| == dim { assert r in recs; }
      VectorsBack(recs[1..], dim, i - 1, rest);
      OneMore(4 * dim, i);
      OneMore(4 * dim, |recs|);
      assert (VectorBytes(recs[0].vector) + tail)[4 * dim * i..] == tail[4 * dim * (i - 1)..];
    }
  }

  lemma {:induction false} VectorsLength(recs: seq<Record>, dim: nat)
    requires forall r | r in recs :: |r.vector| == dim
    ensures |VectorsBytes(recs)| == 4 * dim * |recs|
  {
    if recs != [] {
      assert recs[0] in recs;
      VectorBack(recs[0].vector, []);
      forall r | r in recs[1..] ensures |r.vector| == dim { assert r in recs; }
      VectorsLength(recs[1..], dim);
      hide VectorBytes;
      OneMore(4 * dim, |recs|);
    }
  }
}
