/** The byte layout of the HNSW index region, and the parser that inverts it. */
module HnswFormat {
  import opened Ordering
  import opened Errors
  import opened SnapshotFormat
  import opened HnswCanonical

  /** The construction parameters stored in front of the graph. */
  datatype RawHeader = RawHeader(m: nat, efConstruction: nat, seed: nat)

  /** static_cast<std::uint32_t> of an int, and back. */
  function ToU32(i: int): U32 { i % TWO32 }

  function ToInt32(v: U32): int { if v < 0x8000_0000 then v else v - TWO32 }

  // ---------------------------------------------------------------- encoding

  ghost predicate FitsList(l: seq<nat>, count: nat) { |l| < TWO32 && forall x | x in l :: x < count }

  ghost predicate FitsNode(n: RawNode, count: nat) {
    && |n.id| < TWO32 && n.topLayer < 0x8000_0000 && |n.neighbors| == n.topLayer + 1
    && forall l | l in n.neighbors :: FitsList(l, count)
  }

  /** Everything of the graph fits its field. */
  ghost predicate FitsGraph(g: RawGraph) {
    && |g.nodes| < TWO32 && -1 <= g.maxLevel < 0x8000_0000 && g.entry < TWO32
    && forall n | n in g.nodes :: FitsNode(n, |g.nodes|)
  }

  ghost predicate FitsHeader(h: RawHeader) { h.m < TWO32 && h.efConstruction < TWO32 && h.seed < TWO64 }

  function ListBytes(l: seq<nat>): Bytes { if l == [] then [] else LE(l[0], 4) + ListBytes(l[1..]) }

  function LayersBytes(ls: seq<seq<nat>>): Bytes {
    if ls == [] then [] else LE(|ls[0]|, 4) + ListBytes(ls[0]) + LayersBytes(ls[1..])
  }

  function NodeBytes(n: RawNode): Bytes { LE(|n.id|, 4) + n.id + LE(n.topLayer, 4) + LayersBytes(n.neighbors) }

  function NodesBytes(ns: seq<RawNode>): Bytes { if ns == [] then [] else NodeBytes(ns[0]) + NodesBytes(ns[1..]) }

  function RegionBytes(h: RawHeader, g: RawGraph): Bytes {
    LE(h.m, 4) + LE(h.efConstruction, 4) + LE(h.seed, 8)
    + LE(|g.nodes|, 4) + LE(ToU32(g.maxLevel), 4) + LE(g.entry, 4) + NodesBytes(g.nodes)
  }

  // ---------------------------------------------------------------- parsing

  /** A list read in front of the rest of a list. */
  function Behind<T>(front: seq<T>, tail: Read<seq<T>>): Read<seq<T>> {
    match tail
    case None => None
    case Some(p) => Some((front + p.0, p.1))
  }

  /** `degree` neighbour ids, each below `count`. */
  function ReadList(s: Bytes, degree: nat, count: nat): Read<seq<nat>>
    decreases degree
  {
    if degree == 0 then Some(([], s))
    else match ReadInt(s, 4)
      case None => None
      case Some(p) => if p.0 >= count then None else Behind([p.0], ReadList(p.1, degree - 1, count))
  }

  function ReadLayers(s: Bytes, layers: nat, count: nat): Read<seq<seq<nat>>>
    decreases layers
  {
    if layers == 0 then Some(([], s))
    else match ReadInt(s, 4)
      case None => None
      case Some(p) =>
        match ReadList(p.1, p.0, count)
        case None => None
        case Some(l) => Behind([l.0], ReadLayers(l.1, layers - 1, count))
  }

  /** A node: a negative top layer is malformed. */
  function ReadNode(s: Bytes, count: nat): Read<RawNode> {
    match ReadString(s)
    case None => None
    case Some(id) =>
      match ReadInt(id.1, 4)
      case None => None
      case Some(top) =>
        if top.0 >= 0x8000_0000 then None
        else match ReadLayers(top.1, top.0 + 1, count)
          case None => None
          case Some(ls) => Some((RawNode(id.0, top.0, ls.0), ls.1))
  }

  function ReadNodes(s: Bytes, n: nat, count: nat): Read<seq<RawNode>>
    decreases n
  {
    if n == 0 then Some(([], s))
    else match ReadNode(s, count)
      case None => None
      case Some(p) => Behind([p.0], ReadNodes(p.1, n - 1, count))
  }

  /** The fixed fields in front of the nodes. */
  datatype Fixed = Fixed(header: RawHeader, count: nat, maxLevel: U32, entry: U32)

  function ReadFixed(s: Bytes): Read<Fixed> {
    if |s| < 28 then None
    else
      Pow256Values();
      LEFromLE(s[20..24]);
      LEFromLE(s[24..28]);
      Some((Fixed(RawHeader(FromLE(s[..4]), FromLE(s[4..8]), FromLE(s[8..16])),
                  FromLE(s[16..20]), FromLE(s[20..24]), FromLE(s[24..28])), s[28..]))
  }

  /** The whole region: every byte must be consumed. */
  function ReadRegion(s: Bytes): Option<(RawHeader, RawGraph)> {
    match ReadFixed(s)
    case None => None
    case Some(f) =>
      match ReadNodes(f.1, f.0.count, f.0.count)
      case None => None
      case Some(ns) =>
        if ns.1 != [] then None
        else Some((f.0.header, RawGraph(ToInt32(f.0.maxLevel), f.0.entry, ns.0)))
  }

  // ---------------------------------------------------------------- the parser inverts the layout

  lemma {:induction false} ReadListBack(l: seq<nat>, count: nat, rest: Bytes)
    requires count <= TWO32 && forall x | x in l :: x < count
    ensures ReadList(ListBytes(l) + rest, |l|, count) == Some((l, rest))
    decreases |l|
  {
    if l == [] {
      assert ListBytes(l) + rest == rest;
    } else {
      var tail := ListBytes(l[1..]) + rest;
      assert ListBytes(l) + rest == LE(l[0], 4) + tail;
      Pow256Values();
      assert l[0] in l;
      ReadBack(l[0], 4, tail);
      forall x | x in l[1..] ensures x < count { assert x in l; }
      ReadListBack(l[1..], count, rest);
      assert [l[0]] + l[1..] == l;
    }
  }

  lemma {:induction false} ReadLayersBack(ls: seq<seq<nat>>, count: nat, rest: Bytes)
    requires count <= TWO32 && forall l | l in ls :: FitsList(l, count)
    ensures ReadLayers(LayersBytes(ls) + rest, |ls|, count) == Some((ls, rest))
    decreases |ls|
  {
    if ls == [] {
      assert LayersBytes(ls) + rest == rest;
    } else {
      var tail := LayersBytes(ls[1..]) + rest;
      assert LayersBytes(ls) + rest == LE(|ls[0]|, 4) + (ListBytes(ls[0]) + tail);
      Pow256Values();
      assert ls[0] in ls;
      ReadBack(|ls[0]|, 4, ListBytes(ls[0]) + tail);
      ReadListBack(ls[0], count, tail);
      ReadLayersBack(ls[1..], count, rest);
      assert [ls[0]] + ls[1..] == ls;
    }
  }

  lemma ReadNodeBack(n: RawNode, count: nat, rest: Bytes)
    requires count <= TWO32 && FitsNode(n, count)
    ensures ReadNode(NodeBytes(n) + rest, count) == Some((n, rest))
  {
    var tail := LayersBytes(n.neighbors) + rest;
    assert NodeBytes(n) + rest == StringBytes(n.id) + (LE(n.topLayer, 4) + tail);
    ReadStringBack(n.id, LE(n.topLayer, 4) + tail);
    Pow256Values();
    ReadBack(n.topLayer, 4, tail);
    ReadLayersBack(n.neighbors, count, rest);
  }

  lemma {:induction false} ReadNodesBack(ns: seq<RawNode>, count: nat, rest: Bytes)
    requires count <= TWO32 && forall n | n in ns :: FitsNode(n, count)
    ensures ReadNodes(NodesBytes(ns) + rest, |ns|, count) == Some((ns, rest))
    decreases |ns|
  {
    if ns == [] {
      assert NodesBytes(ns) + rest == rest;
    } else {
      var tail := NodesBytes(ns[1..]) + rest;
      assert NodesBytes(ns) + rest == NodeBytes(ns[0]) + tail;
      assert ns[0] in ns;
      ReadNodeBack(ns[0], count, tail);
      ReadNodesBack(ns[1..], count, rest);
      assert [ns[0]] + ns[1..] == ns;
    }
  }

  lemma ReadFixedBack(f: Fixed, rest: Bytes)
    requires FitsHeader(f.header) && f.count < TWO32
    ensures ReadFixed(LE(f.header.m, 4) + LE(f.header.efConstruction, 4) + LE(f.header.seed, 8)
                      + LE(f.count, 4) + LE(f.maxLevel, 4) + LE(f.entry, 4) + rest) == Some((f, rest))
  {
    var h := f.header;
    var s := LE(h.m, 4) + LE(h.efConstruction, 4) + LE(h.seed, 8)
      + LE(f.count, 4) + LE(f.maxLevel, 4) + LE(f.entry, 4) + rest;
    Pow256Values();
    FromLELE(h.m, 4);
    FromLELE(h.efConstruction, 4);
    FromLELE(h.seed, 8);
    FromLELE(f.count, 4);
    FromLELE(f.maxLevel, 4);
    FromLELE(f.entry, 4);
    hide LE, FromLE;
    FixedSlices(LE(h.m, 4), LE(h.efConstruction, 4), LE(h.seed, 8), LE(f.count, 4), LE(f.maxLevel, 4), LE(f.entry, 4),
                rest);
  }

  /** Appending keeps a slice, and the appended part lies behind. */
  lemma Appended(x: Bytes, tail: Bytes, lo: nat, hi: nat)
    requires lo <= hi <= |x|
    ensures (x + tail)[lo..hi] == x[lo..hi] && (x + tail)[|x|..|x| + |tail|] == tail && (x + tail)[|x|..] == tail
  {
  }

  /** Where the six fixed fields lie. */
  lemma FixedSlices(a: Bytes, b: Bytes, c: Bytes, d: Bytes, e: Bytes, f: Bytes, rest: Bytes)
    requires |a| == |b| == |d| == |e| == |f| == 4 && |c| == 8
    ensures var s := a + b + c + d + e + f + rest;
      && |s| == 28 + |rest| && s[..4] == a && s[4..8] == b && s[8..16] == c && s[16..20] == d && s[20..24] == e
      && s[24..28] == f
      && s[28..] == rest
  {
    var ab := a + b; var abc := ab + c; var abcd := abc + d; var abcde := abcd + e; var all := abcde + f;
    FourSlices(a, b, c, d);
    Appended(abcd, e, 0, 4); Appended(abcd, e, 4, 8); Appended(abcd, e, 8, 16); Appended(abcd, e, 16, 20);
    Appended(abcde, f, 0, 4); Appended(abcde, f, 4, 8); Appended(abcde, f, 8, 16); Appended(abcde, f, 16,
             20); Appended(abcde, f, 20, 24);
    Appended(all, rest, 0, 4); Appended(all, rest, 4, 8); Appended(all, rest, 8, 16); Appended(all, rest, 16, 20);
    Appended(all, rest, 20, 24); Appended(all, rest, 24, 28);
  }

  lemma FourSlices(a: Bytes, b: Bytes, c: Bytes, d: Bytes)
    requires |a| == |b| == |d| == 4 && |c| == 8
    ensures var s := a + b + c + d; |s| == 20 && s[0..4] == a && s[4..8] == b && s[8..16] == c && s[16..20] == d
  {
    Appended(a, b, 0, 4);
    Appended(a + b, c, 0, 4); Appended(a + b, c, 4, 8);
    Appended(a + b + c, d, 0, 4); Appended(a + b + c, d, 4, 8); Appended(a + b + c, d, 8, 16);
  }

  /** -1 is stored as 0xFFFFFFFF and read back as -1. */
  lemma LevelRoundTrip(i: int)
    requires -1 <= i < 0x8000_0000
    ensures ToInt32(ToU32(i)) == i
  {
    if i == -1 { assert -1 % 0x1_0000_0000 == 0xFFFF_FFFF; }
  }

  /** Parsing what was laid out gives back the parameters and the graph. */
  lemma RegionRoundTrip(h: RawHeader, g: RawGraph)
    requires FitsHeader(h) && FitsGraph(g)
    ensures ReadRegion(RegionBytes(h, g)) == Some((h, g))
  {
    var f := Fixed(h, |g.nodes|, ToU32(g.maxLevel), g.entry);
    ReadFixedBack(f, NodesBytes(g.nodes));
    ReadNodesBack(g.nodes, |g.nodes|, []);
    assert NodesBytes(g.nodes) + [] == NodesBytes(g.nodes);
    LevelRoundTrip(g.maxLevel);
    hide ReadFixed, ReadNodes, LE, FitsNode, NodesBytes;
  }

  // ---------------------------------------------------------------- what is read is what was laid out

  lemma {:induction false} ListSound(s: Bytes, degree: nat, count: nat)
    requires ReadList(s, degree, count).Some?
    ensures var r := ReadList(s, degree, count).value;
      |r.0| == degree && (forall x | x in r.0 :: x < count) && s == ListBytes(r.0) + r.1
    decreases degree
  {
    hide LE, ReadInt;
    if degree == 0 {
      assert [] + s == s;
    } else {
      var p := ReadInt(s, 4).value;
      ReadIntSound(s, 4);
      ListSound(p.1, degree - 1, count);
      var more := ReadList(p.1, degree - 1, count).value;
      assert ([p.0] + more.0)[1..] == more.0;
      Assoc(LE(p.0, 4), ListBytes(more.0), more.1);
    }
  }

  lemma {:induction false} LayersSound(s: Bytes, layers: nat, count: nat)
    requires ReadLayers(s, layers, count).Some?
    ensures var r := ReadLayers(s, layers, count).value;
      |r.0| == layers && (forall l | l in r.0 :: FitsList(l, count)) && s == LayersBytes(r.0) + r.1
    decreases layers
  {
    hide LE, ReadInt, ReadList, ListBytes;
    if layers == 0 {
      assert [] + s == s;
    } else {
      var p := ReadInt(s, 4).value;
      ReadIntSound(s, 4);
      Pow256Values();
      ListSound(p.1, p.0, count);
      var l := ReadList(p.1, p.0, count).value;
      LayersSound(l.1, layers - 1, count);
      var more := ReadLayers(l.1, layers - 1, count).value;
      assert ([l.0] + more.0)[1..] == more.0;
      Regroup(LE(p.0, 4), ListBytes(l.0), LayersBytes(more.0), more.1);
    }
  }

  lemma NodeSound(s: Bytes, count: nat)
    requires ReadNode(s, count).Some?
    ensures var r := ReadNode(s, count).value; FitsNode(r.0, count) && s == NodeBytes(r.0) + r.1
  {
    hide LE, ReadInt, ReadString, ReadLayers, LayersBytes, FitsList;
    var id := ReadString(s).value;
    ReadStringSound(s);
    var top := ReadInt(id.1, 4).value;
    ReadIntSound(id.1, 4);
    LayersSound(top.1, top.0 + 1, count);
    var ls := ReadLayers(top.1, top.0 + 1, count).value;
    Regroup(StringBytes(id.0), LE(top.0, 4), LayersBytes(ls.0), ls.1);
  }

  lemma {:induction false} NodesSound(s: Bytes, n: nat, count: nat)
    requires ReadNodes(s, n, count).Some?
    ensures var r := ReadNodes(s, n, count).value;
      |r.0| == n && (forall x | x in r.0 :: FitsNode(x, count)) && s == NodesBytes(r.0) + r.1
    decreases n
  {
    hide ReadNode, NodeBytes, FitsNode;
    if n == 0 {
      assert [] + s == s;
    } else {
      var p := ReadNode(s, count).value;
      NodeSound(s, count);
      NodesSound(p.1, n - 1, count);
      var more := ReadNodes(p.1, n - 1, count).value;
      assert ([p.0] + more.0)[1..] == more.0;
      Assoc(NodeBytes(p.0), NodesBytes(more.0), more.1);
    }
  }

  lemma FixedSound(s: Bytes)
    requires ReadFixed(s).Some?
    ensures var f, rest := ReadFixed(s).value.0, ReadFixed(s).value.1;
      && FitsHeader(f.header) && f.count < TWO32
      && s == LE(f.header.m, 4) + LE(f.header.efConstruction, 4) + LE(f.header.seed, 8)
              + LE(f.count, 4) + LE(f.maxLevel, 4) + LE(f.entry, 4) + rest
  {
    Pow256Values();
    LEFromLE(s[..4]); LEFromLE(s[4..8]); LEFromLE(s[8..16]);
    LEFromLE(s[16..20]); LEFromLE(s[20..24]); LEFromLE(s[24..28]);
    hide LE, FromLE;
    SixFields(s);
  }

  lemma SixFields(s: Bytes)
    requires |s| >= 28
    ensures s == s[..4] + s[4..8] + s[8..16] + s[16..20] + s[20..24] + s[24..28] + s[28..]
  {
  }

  /** Any level is stored as it was read. */
  lemma LevelSound(v: U32)
    ensures ToU32(ToInt32(v)) == v
  {
    if v >= 0x8000_0000 { assert (v - TWO32) % TWO32 == v; }
  }

  /** An accepted region is the layout of what is read from it, and that fits its fields. */
  lemma RegionSound(region: Bytes)
    requires ReadRegion(region).Some?
    ensures var (h, raw) := ReadRegion(region).value;
      && region == RegionBytes(h, raw) && FitsHeader(h) && |raw.nodes| < TWO32
      && forall n | n in raw.nodes :: FitsNode(n, |raw.nodes|)
  {
    hide ReadFixed, ReadNodes, LE, FitsNode, NodesBytes, FitsHeader, ToInt32, ToU32;
    var f := ReadFixed(region).value;
    FixedSound(region);
    NodesSound(f.1, f.0.count, f.0.count);
    LevelSound(f.0.maxLevel);
    var ns := ReadNodes(f.1, f.0.count, f.0.count).value;
    assert NodesBytes(ns.0) + [] == NodesBytes(ns.0);
  }

  // ---------------------------------------------------------------- writing and reading in steps

  lemma {:induction false} ListBytesSnoc(l: seq<nat>, x: nat)
    ensures ListBytes(l + [x]) == ListBytes(l) + LE(x, 4)
  {
    hide LE;
    if l == [] {
      assert [x][1..] == [];
    } else {
      ListBytesSnoc(l[1..], x);
      assert (l + [x])[1..] == l[1..] + [x];
    }
  }

  lemma {:induction false} LayersBytesSnoc(ls: seq<seq<nat>>, l: seq<nat>)
    ensures LayersBytes(ls + [l]) == LayersBytes(ls) + LE(|l|, 4) + ListBytes(l)
  {
    hide LE, ListBytes;
    if ls == [] {
      assert [l][1..] == [];
    } else {
      LayersBytesSnoc(ls[1..], l);
      assert (ls + [l])[1..] == ls[1..] + [l];
    }
  }

  lemma {:induction false} NodesBytesSnoc(ns: seq<RawNode>, n: RawNode)
    ensures NodesBytes(ns + [n]) == NodesBytes(ns) + NodeBytes(n)
  {
    hide NodeBytes;
    if ns == [] {
      assert [n][1..] == [];
    } else {
      NodesBytesSnoc(ns[1..], n);
      assert (ns + [n])[1..] == ns[1..] + [n];
    }
  }

  lemma BehindTwice<T>(a: seq<T>, b: seq<T>, t: Read<seq<T>>)
    ensures Behind(a, Behind(b, t)) == Behind(a + b, t)
  {
    if t.Some? { assert a + (b + t.value.0) == a + b + t.value.0; }
  }

  lemma BehindNothing<T>(t: Read<seq<T>>)
    ensures Behind([], t) == t
  {
    if t.Some? { assert [] + t.value.0 == t.value.0; }
  }

  lemma NothingBehind<T>(a: seq<T>, s: Bytes)
    ensures Behind(a, Some(([], s))) == Some((a, s))
  {
    assert a + [] == a;
  }
}
