/** The byte format written out: every field at its place, and literal bytes for every kind of value. */
module SnapshotBytes {
  import opened Ordering
  import opened Identifiers
  import opened Errors
  import opened SnapshotFormat
  import opened SnapshotLayout
  import opened SnapshotImage
  import opened SnapshotRoundTrip
  import Crc64
  import HnswCanonical
  import HnswFormat
  import Ivf

  // ---------------------------------------------------------------- the image

  /** The header of an image, byte range by byte range. */
  lemma HeaderPlaces(d: SnapshotData)
    requires Storable(d)
    ensures var s := Image(d);
      && |s| >= 76 && s[0..8] == [86, 86, 65, 85, 76, 84, 48, 49] && FromLE(s[8..12]) == 1 && FromLE(s[12..16]) == 0
      && FromLE(s[16..20]) == d.config.dimensionality && s[20] == d.config.metric && s[21] == d.indexType
      && s[22] == 0 && s[23] == 0 && FromLE(s[24..32]) == |d.records| && FromLE(s[32..36]) == |d.config.name|
      && FromLE(s[36..44]) == VectorOff(d) && FromLE(s[44..52]) == |d.records| * (4 * d.config.dimensionality)
      && FromLE(s[52..60]) == VectorOff(d) + |d.records| * (4 * d.config.dimensionality)
      && FromLE(s[60..68]) == |d.indexBlob|
      && Crc64.BitsOf(FromLE(s[68..76]), 64)
         == Crc64.Remainder(Crc64.MessageBits(s[76..]) + Crc64.Zeros(64), Crc64.Generator())
  {
    ImageHeader(d);
    HeaderFields(d);
    ChecksumIsRemainder(Body(d));
    HeaderValues(d);
    hide Storable, Body, CrcOf, VectorOff, Image, HeaderFor, FromLE, VectorsBytes, Crc64.BitsOf, Crc64.Remainder,
      Crc64.MessageBits, Crc64.Generator;
    var s := Image(d);
    assert s[0..8] == s[..8];
  }

  lemma HeaderValues(d: SnapshotData)
    requires Storable(d)
    ensures var h := HeaderFor(d);
      && h.version == 1 && h.flags == 0 && h.reserved0 == 0 && h.reserved1 == 0 && h.crc == CrcOf(Body(d))
      && h.vectorLen == |d.records| * (4 * d.config.dimensionality)
  {
    hide Storable, Body, CrcOf, VectorOff;
  }

  /** The stored checksum is the remainder of the content by the generator of ECMA-182. */
  lemma ChecksumIsRemainder(content: Bytes)
    ensures Crc64.BitsOf(CrcOf(content), 64)
      == Crc64.Remainder(Crc64.MessageBits(content) + Crc64.Zeros(64), Crc64.Generator())
  {
    hide Crc64.Crc, Crc64.Remainder, Crc64.MessageBits, Crc64.Generator, Crc64.BitsOf, Crc64.NumberOf;
    Crc64.CrcIsRemainder(content);
    Crc64.BitsOfNumber(Crc64.Crc(content, Crc64.Zeros(64)));
  }

  /** Behind the header: the name, the directory, zeros up to a multiple of 64, the vectors, the index region. */
  lemma BodyPlaces(d: SnapshotData)
    requires Storable(d)
    ensures var s, n, v := Image(d), 76 + |d.config.name|, VectorOff(d);
      var end := n + |DirectoryOf(d)|;
      && v % 64 == 0 && end <= v < end + 64 && v + |VectorsBytes(d.records)| <= |s|
      && s[76..n] == d.config.name && s[n..end] == DirectoryOf(d)
      && s[v..v + |VectorsBytes(d.records)|] == VectorsBytes(d.records)
      && s[v + |VectorsBytes(d.records)|..] == d.indexBlob
  {
    hide Storable, Body, VectorOff, Image, HeaderFor, VectorsBytes, DirectoryOf;
    ImageHeader(d);
    VectorOffAligned(d);
    PartsInFile(d, Image(d));
    var s, n, v := Image(d), 76 + |d.config.name|, VectorOff(d);
    SliceOfSuffix(s, n, |DirectoryOf(d)|);
    SliceOfSuffix(s, v, |VectorsBytes(d.records)|);
    assert s[n..][..|DirectoryOf(d)|] == DirectoryOf(d);
    assert s[v..][..|VectorsBytes(d.records)|] == VectorsBytes(d.records);
  }

  /** What the loader has checked of an image it accepts, byte range by byte range. */
  lemma AcceptedPlaces(s: Bytes)
    requires Decode(s).Success?
    ensures |s| >= 76 && s[0..8] == [86, 86, 65, 85, 76, 84, 48, 49] && FromLE(s[8..12]) == 1
    ensures 1 <= FromLE(s[16..20]) <= 65536 && s[20] <= 2 && s[21] <= 2 && 1 <= FromLE(s[32..36]) <= 255
    ensures FromLE(s[44..52]) == FromLE(s[24..32]) * (4 * FromLE(s[16..20]))
    ensures 76 + FromLE(s[32..36]) <= |s|
    ensures 76 <= FromLE(s[36..44]) && FromLE(s[36..44]) + FromLE(s[44..52]) <= |s|
    ensures FromLE(s[52..60]) + FromLE(s[60..68]) <= |s| && (s[21] == 0 <==> FromLE(s[60..68]) == 0)
    ensures Crc64.BitsOf(FromLE(s[68..76]), 64)
      == Crc64.Remainder(Crc64.MessageBits(s[76..]) + Crc64.Zeros(64), Crc64.Generator())
  {
    hide DecodeBody, CrcOf, FromLE, Crc64.BitsOf, Crc64.Remainder, Crc64.MessageBits, Crc64.Generator;
    ChecksumIsRemainder(s[HEADER_SIZE..]);
    assert s[0..8] == s[..8];
  }

  // ---------------------------------------------------------------- bytes the encoder never writes

  /** Any presence byte but zero means present, any flag byte but zero means true, and a tag above 3 is malformed. */
  lemma OddBytes(b: Byte, t: Bytes)
    ensures b > 3 ==> ReadValue([b] + t) == None
    ensures ReadMeta([b] + t) == if b == 0 then Some((None, t)) else ReadMeta([1] + t)
    ensures ReadValue([3] + ([b] + t)) == Some((BoolValue(b != 0), t))
  {
    hide ReadEntries, ReadInt, ReadString;
    assert ([b] + t)[1..] == t && ([1] + t)[1..] == t && ([3] + ([b] + t))[1..] == [b] + t;
  }

  /** A metadata blob is taken only when it is read to its end. */
  lemma BlobFilled(s: Bytes)
    requires ReadBlob(s).Some?
    ensures var (meta, rest) := ReadBlob(s).value;
      exists blob :: |blob| < TWO32 && s == LE(|blob|, 4) + blob + rest && ReadMeta(blob) == Some((meta, []))
  {
    hide ReadMeta, LE, FromLE;
    var n := ReadInt(s, 4).value;
    ReadIntSound(s, 4);
    Pow256Values();
    var blob := n.1[..n.0];
    assert n.1 == blob + n.1[n.0..];
    Assoc(LE(n.0, 4), blob, n.1[n.0..]);
    assert ReadMeta(blob) == Some((ReadBlob(s).value.0, []));
  }

  /** Of several entries with one key the first is kept. */
  lemma {:induction false} FirstKept(s: Bytes, n: nat, m: Metadata)
    requires ReadEntries(s, n, m).Some?
    ensures forall k | k in m :: k in ReadEntries(s, n, m).value.0 && ReadEntries(s, n, m).value.0[k] == m[k]
    decreases n
  {
    hide ReadString, ReadValue;
    if n > 0 {
      var k := ReadString(s).value;
      var v := ReadValue(k.1).value;
      FirstKept(v.1, n - 1, Emplace(m, k.0, v.0));
    }
  }

  // ---------------------------------------------------------------- literal bytes

  lemma LowDigit(digit: Byte, rest: nat)
    ensures (digit + 256 * rest) % 256 == digit && (digit + 256 * rest) / 256 == rest
  {
  }

  lemma OneDigit(v: nat, digit: Byte, rest: nat, n: nat)
    requires v == digit + 256 * rest
    ensures LE(v, n + 1) == [digit] + LE(rest, n)
  {
    LowDigit(digit, rest);
    var low, high := v % 256, v / 256;
    assert low == digit && high == rest;
    assert LE(v, n + 1) == [low] + LE(high, n);
  }

  lemma Four(a: Byte, b: Byte, c: Byte, d: Byte, more: Bytes)
    ensures [a] + ([b] + ([c] + ([d] + more))) == [a, b, c, d] + more
  {
  }

  /** A number whose four lowest bytes are given. */
  lemma FourDigits(v: nat, a: Byte, b: Byte, c: Byte, d: Byte, rest: nat, n: nat)
    requires v == a + 256 * (b + 256 * (c + 256 * (d + 256 * rest)))
    ensures LE(v, n + 4) == [a, b, c, d] + LE(rest, n)
  {
    hide LE;
    var x := d + 256 * rest;
    var y := c + 256 * x;
    var z := b + 256 * y;
    OneDigit(v, a, z, n + 3);
    OneDigit(z, b, y, n + 2);
    OneDigit(y, c, x, n + 1);
    OneDigit(x, d, rest, n);
    Four(a, b, c, d, LE(rest, n));
  }

  /** A 32-bit number by its bytes. */
  lemma Word(v: nat, a: Byte, b: Byte, c: Byte, d: Byte)
    requires v == a + 256 * (b + 256 * (c + 256 * d))
    ensures LE(v, 4) == [a, b, c, d]
  {
    FourDigits(v, a, b, c, d, 0, 0);
    assert LE(0, 0) == [] && [a, b, c, d] + [] == [a, b, c, d];
  }

  /** A 64-bit number by its two halves. */
  lemma Long(v: nat, low: nat, high: nat)
    requires v == low + 4294967296 * high && low < 4294967296
    ensures LE(v, 8) == LE(low, 4) + LE(high, 4)
  {
    hide LE, Pow256;
    var a, b, c, d := low % 256, low / 256 % 256, low / 65536 % 256, low / 16777216;
    FourDigits(v, a, b, c, d, high, 4);
    Word(low, a, b, c, d);
  }

  /** One value of each kind. */
  lemma ValueExamples()
    ensures ValueBytes(StringValue([120, 121])) == [0] + ([2, 0, 0, 0] + [120, 121])
    ensures ValueBytes(IntValue(-2)) == [1] + ([254, 255, 255, 255] + [255, 255, 255, 255])
    ensures ValueBytes(DoubleValue(0x3FF0_0000_0000_0000)) == [2] + ([0, 0, 0, 0] + [0, 0, 240, 63])
    ensures ValueBytes(BoolValue(true)) == [3] + [1] && ValueBytes(BoolValue(false)) == [3] + [0]
  {
    Word(2, 2, 0, 0, 0);
    Word(0xFFFF_FFFE, 254, 255, 255, 255); Word(0xFFFF_FFFF, 255, 255, 255, 255);
    Word(0, 0, 0, 0, 0); Word(0x3FF0_0000, 0, 0, 240, 63);
    Long(0xFFFF_FFFF_FFFF_FFFE, 0xFFFF_FFFE, 0xFFFF_FFFF);
    Long(0x3FF0_0000_0000_0000, 0, 0x3FF0_0000);
    hide LE;
    assert ToU64(-2) == 0xFFFF_FFFF_FFFF_FFFE;
  }

  /** No metadata, and one entry under the key "k". */
  lemma MetaExamples(k: Bytes)
    requires k == [107]
    ensures MetaBytes(None) == [0]
    ensures MetaBytes(Some(map[k := BoolValue(true)]))
      == [1] + [1, 0, 0, 0] + ([1, 0, 0, 0] + [107] + ([3] + [1]) + [])
  {
    var m: Metadata := map[k := BoolValue(true)];
    OneKey(k);
    assert m.Keys == {k};
    Word(1, 1, 0, 0, 0);
    hide LE, SortedIds;
    assert EntriesBytes([k], m) == LE(1, 4) + k + ValueBytes(m[k]) + EntriesBytes([], m);
  }

  lemma OneKey(k: Bytes)
    ensures SortedIds({k}) == [k]
  {
    hide SortedIds;
    var r := SortedIds({k});
    assert r[0] in r && |r| == 1;
  }

  /** The directory entry of a record at place 258, and one component. */
  lemma RecordExample(id: RecordId)
    requires id == [98]
    ensures RecordBytes(Record(id, [], None), 258)
      == [1, 0, 0, 0] + [98] + ([2, 1, 0, 0] + [0, 0, 0, 0]) + ([1, 0, 0, 0] + [0])
    ensures VectorBytes([0x3F80_0000]) == [0, 0, 128, 63]
  {
    Word(1, 1, 0, 0, 0); Word(258, 2, 1, 0, 0); Word(0, 0, 0, 0, 0); Word(0x3F80_0000, 0, 0, 128, 63);
    Long(258, 258, 0);
    hide LE;
  }

  /** The index regions of an empty graph and of an inverted file. */
  lemma RegionExamples(h: HnswFormat.RawHeader, raw: HnswCanonical.RawGraph)
    requires h == HnswFormat.RawHeader(16, 200, 42) && raw == HnswCanonical.RawGraph(-1, HnswCanonical.NONE, [])
    ensures HnswFormat.RegionBytes(h, raw)
      == [16, 0, 0, 0] + [200, 0, 0, 0] + ([42, 0, 0, 0] + [0, 0, 0, 0])
         + [0, 0, 0, 0] + [255, 255, 255, 255] + [255, 255, 255, 255] + []
    ensures Ivf.Region(3, 7) == [3, 0, 0, 0] + ([7, 0, 0, 0] + [0, 0, 0, 0])
  {
    Word(16, 16, 0, 0, 0); Word(200, 200, 0, 0, 0); Word(42, 42, 0, 0, 0); Word(0, 0, 0, 0, 0);
    Word(0xFFFF_FFFF, 255, 255, 255, 255); Word(3, 3, 0, 0, 0); Word(7, 7, 0, 0, 0);
    Long(42, 42, 0); Long(7, 7, 0);
    hide LE;
    assert HnswFormat.ToU32(raw.maxLevel) == 0xFFFF_FFFF && HnswFormat.NodesBytes(raw.nodes) == [];
  }

  /** A node of two layers, the lower one with two neighbours. */
  lemma NodeExample(n: HnswCanonical.RawNode)
    requires n.id == [97] && n.topLayer == 1 && n.neighbors == [[1, 2], []]
    ensures HnswFormat.NodeBytes(n)
      == [1, 0, 0, 0] + [97] + [1, 0, 0, 0]
         + ([2, 0, 0, 0] + ([1, 0, 0, 0] + ([2, 0, 0, 0] + [])) + ([0, 0, 0, 0] + [] + []))
  {
    Word(1, 1, 0, 0, 0); Word(2, 2, 0, 0, 0); Word(0, 0, 0, 0, 0);
    hide LE;
    var lower, upper: seq<seq<nat>> := n.neighbors[0], n.neighbors[1..];
    assert lower == [1, 2] && upper == [[]] && upper[1..] == [];
    assert HnswFormat.LayersBytes(upper) == [0, 0, 0, 0] + [] + [];
    assert HnswFormat.ListBytes([1, 2]) == [1, 0, 0, 0] + ([2, 0, 0, 0] + []) by {
      assert [1, 2][1..] == [2];
    }
  }
}
