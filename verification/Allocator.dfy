/** The arena allocator: address-ordered first fit, two-sided coalescing, per-tag accounting. */
module Allocator {
  import opened Arena
  import opened Vectors

  /** A pointer into the arena, as a displacement from its base, or null; foreign ones lie outside. */
  datatype Pointer = Null | At(displacement: int)

  datatype Block = Block(data: Pointer, size: nat)

  datatype AllocResult = Granted(block: Block) | Exhausted

  datatype AllocStats = AllocStats(totalAllocatedBytes: nat, liveBlockCount: nat)

  function Lookup(m: map<Tag, nat>, t: Tag): nat { if t in m then m[t] else 0 }

  // ---------------------------------------------------------------- free-list steps

  /** What is left of a span after its first `needed` bytes are taken. */
  function Rest(s: Span, needed: nat): seq<Span> {
    if s.size > needed then [Span(s.offset + needed, s.size - needed)] else []
  }

  /** The free list after the first `needed` bytes of span `i` are taken. */
  function Taken(free: seq<Span>, i: nat, needed: nat): seq<Span>
    requires i < |free|
  {
    free[..i] + Rest(free[i], needed) + free[i + 1..]
  }

  lemma AroundSpan(free: seq<Span>, i: nat)
    requires i < |free|
    ensures free == free[..i] + [free[i]] + free[i + 1..]
  {
  }

  lemma CoverageOfThree(a: seq<Span>, m: seq<Span>, b: seq<Span>, x: int)
    ensures IsFree(a + m + b, x) <==> IsFree(a, x) || IsFree(m, x) || IsFree(b, x)
  {
    hide IsFree;
    FreeConcat(a + m, b, x);
    FreeConcat(a, m, x);
  }

  lemma CoverageOfOne(s: Span, x: int)
    ensures IsFree([s], x) <==> InSpan(s, x)
  {
    if InSpan(s, x) { assert InSpan([s][0], x); }
  }

  lemma RestCoverage(s: Span, needed: nat, x: int)
    requires needed <= s.size
    ensures IsFree(Rest(s, needed), x) <==> s.offset + needed <= x < s.offset + s.size
  {
    if s.size > needed { CoverageOfOne(Span(s.offset + needed, s.size - needed), x); }
  }

  /** Bytes free in the spans before and after span `i` lie on their side of it. */
  lemma Sides(free: seq<Span>, i: nat, x: int)
    requires Canonical(free) && i < |free|
    ensures IsFree(free[..i], x) ==> x < free[i].offset
    ensures IsFree(free[i + 1..], x) ==> free[i].offset + free[i].size < x
  {
    var a, b := free[..i], free[i + 1..];
    if IsFree(a, x) {
      var j :| 0 <= j < |a| && InSpan(a[j], x);
      assert free[j].offset + free[j].size < free[i].offset;
    }
    if IsFree(b, x) {
      var j :| 0 <= j < |b| && InSpan(b[j], x);
      assert free[i].offset + free[i].size < free[i + 1 + j].offset;
    }
  }

  lemma TakenCoverage(free: seq<Span>, i: nat, needed: nat, x: int)
    requires Canonical(free) && i < |free| && 0 < needed <= free[i].size
    ensures IsFree(Taken(free, i, needed), x) <==>
            IsFree(free, x) && !(free[i].offset <= x < free[i].offset + needed)
  {
    Sides(free, i, x);
    hide IsFree, Canonical, Rest;
    AroundSpan(free, i);
    CoverageOfThree(free[..i], [free[i]], free[i + 1..], x);
    CoverageOfThree(free[..i], Rest(free[i], needed), free[i + 1..], x);
    CoverageOfOne(free[i], x);
    RestCoverage(free[i], needed, x);
  }

  /** Every span of `a` ends strictly before every span of `b` starts. */
  ghost predicate Before(a: seq<Span>, b: seq<Span>) {
    forall i, j | 0 <= i < |a| && 0 <= j < |b| :: a[i].offset + a[i].size < b[j].offset
  }

  lemma CanonicalConcat(a: seq<Span>, b: seq<Span>)
    requires Canonical(a) && Canonical(b) && Before(a, b)
    ensures Canonical(a + b)
  {
  }

  lemma BeforeConcat(a: seq<Span>, b: seq<Span>, c: seq<Span>)
    requires Before(a, c) && Before(b, c)
    ensures Before(a + b, c)
  {
  }

  lemma SlicesCanonical(free: seq<Span>, i: nat, needed: nat)
    requires Canonical(free) && i < |free| && 0 < needed <= free[i].size
    ensures Canonical(free[..i]) && Canonical(Rest(free[i], needed)) && Canonical(free[i + 1..])
    ensures Before(free[..i], Rest(free[i], needed)) && Before(free[..i], free[i + 1..])
    ensures Before(Rest(free[i], needed), free[i + 1..])
  {
  }

  lemma TakenCanonical(free: seq<Span>, i: nat, needed: nat)
    requires Canonical(free) && i < |free| && 0 < needed <= free[i].size
    ensures Canonical(Taken(free, i, needed))
  {
    hide Canonical, Before, Rest;
    SlicesCanonical(free, i, needed);
    CanonicalConcat(free[..i], Rest(free[i], needed));
    BeforeConcat(free[..i], Rest(free[i], needed), free[i + 1..]);
    CanonicalConcat(free[..i] + Rest(free[i], needed), free[i + 1..]);
  }

  lemma ThreePartsBytes(a: seq<Span>, m: seq<Span>, b: seq<Span>)
    ensures FreeBytes(a + m + b) == FreeBytes(a) + FreeBytes(m) + FreeBytes(b)
  {
    FreeBytesConcat(a + m, b);
    FreeBytesConcat(a, m);
  }

  lemma PieceBytes(s: Span, needed: nat)
    requires needed <= s.size
    ensures FreeBytes([s]) == s.size && FreeBytes(Rest(s, needed)) == s.size - needed
  {
  }

  lemma TakenBytes(free: seq<Span>, i: nat, needed: nat)
    requires i < |free| && needed <= free[i].size
    ensures FreeBytes(Taken(free, i, needed)) + needed == FreeBytes(free)
  {
    hide FreeBytes, Rest;
    AroundSpan(free, i);
    ThreePartsBytes(free[..i], [free[i]], free[i + 1..]);
    ThreePartsBytes(free[..i], Rest(free[i], needed), free[i + 1..]);
    PieceBytes(free[i], needed);
  }

  /** Taking the front of a span keeps everything aligned. */
  lemma TakenAligned(free: seq<Span>, live: LiveMap, i: nat, needed: nat, r: AllocRecord)
    requires Aligned(free, live) && i < |free| && 0 < needed <= free[i].size
    requires needed % ALIGNMENT == 0 && r.rounded == needed
    ensures Aligned(Taken(free, i, needed), live[free[i].offset := r])
  {
    hide AlignedSpan;
    AlignedTail(free[i], needed);
  }

  lemma AlignedTail(s: Span, needed: nat)
    requires AlignedSpan(s) && needed <= s.size && needed % ALIGNMENT == 0
    ensures AlignedSpan(Span(s.offset + needed, s.size - needed))
  {
    AlignedSum(s.offset, needed);
    AlignedRest(s.size, needed);
  }

  lemma TakenTiles(capacity: nat, free: seq<Span>, live: LiveMap, i: nat, needed: nat, r: AllocRecord)
    requires Canonical(free) && Tiles(capacity, free, live)
    requires i < |free| && 0 < needed <= free[i].size && r.rounded == needed
    ensures free[i].offset !in live
    ensures Tiles(capacity, Taken(free, i, needed), live[free[i].offset := r])
  {
    var at := free[i].offset;
    assert InSpan(free[i], at);
    assert IsFree(free, at) && !IsLive(live, at);
    var live' := live[at := r];
    forall x | 0 <= x < capacity ensures IsFree(Taken(free, i, needed), x) <==> !IsLive(live', x) {
      TakenCoverage(free, i, needed, x);
      LiveExtended(live, at, r, x);
    }
    forall o | o in live ensures o + live[o].rounded <= at || at + needed <= o {
      if at < o < at + needed {
        assert InSpan(free[i], o) && IsFree(free, o);
        assert IsLive(live, o);
      }
    }
  }

  lemma LiveExtended(live: LiveMap, at: nat, r: AllocRecord, x: int)
    requires at !in live
    ensures IsLive(live[at := r], x) <==> IsLive(live, x) || at <= x < at + r.rounded
  {
    var live' := live[at := r];
    if IsLive(live, x) {
      var o :| o in live && o <= x < o + live[o].rounded;
      assert o in live' && live'[o] == live[o];
    }
    assert at in live' && live'[at] == r;
  }

  /** How many spans start below `offset`: the position std::map gives a new key. */
  function LowerBound(free: seq<Span>, offset: nat): (i: nat)
    ensures i <= |free|
    ensures i < |free| ==> offset <= free[i].offset
    ensures forall j | 0 <= j < i :: free[j].offset < offset
  {
    if free == [] || offset <= free[0].offset then 0 else 1 + LowerBound(free[1..], offset)
  }

  /** `s` can be freed: no byte of it is free already. */
  ghost predicate Separate(free: seq<Span>, s: Span) {
    s.size > 0 && forall i | 0 <= i < |free| ::
      free[i].offset + free[i].size <= s.offset || s.offset + s.size <= free[i].offset
  }

  /** Coverage of a list in which the middle entry stands for one interval. */
  lemma ThreeParts(a: seq<Span>, m: Span, b: seq<Span>, x: int)
    ensures IsFree(a + [m] + b, x) <==> IsFree(a, x) || InSpan(m, x) || IsFree(b, x)
  {
    FreeConcat(a + [m], b, x);
    FreeConcat(a, [m], x);
    if InSpan(m, x) { assert InSpan([m][0], x); }
  }

  /** `m` joined with a right neighbour that starts where it ends. */
  function JoinRight(m: Span, b: seq<Span>): (Span, seq<Span>) {
    if b != [] && m.offset + m.size == b[0].offset then (Span(m.offset, m.size + b[0].size), b[1..]) else (m, b)
  }

  /** `m` joined with a left neighbour that ends where it starts. */
  function JoinLeft(a: seq<Span>, m: Span): (seq<Span>, Span) {
    var n := |a|;
    if n > 0 && a[n - 1].offset + a[n - 1].size == m.offset
    then (a[..n - 1], Span(a[n - 1].offset, a[n - 1].size + m.size)) else (a, m)
  }

  /** The free list after `s` is returned to it: inserted by address and merged on both sides. */
  function Freed(free: seq<Span>, s: Span): seq<Span> {
    var i := LowerBound(free, s.offset);
    var (m, b) := JoinRight(s, free[i..]);
    var (a, m') := JoinLeft(free[..i], m);
    a + [m'] + b
  }

  lemma JoinRightShape(m: Span, b: seq<Span>)
    requires Canonical(b) && m.size > 0 && forall j | 0 <= j < |b| :: m.offset + m.size <= b[j].offset
    ensures var (m', b') := JoinRight(m, b);
            Canonical(b') && Before([m'], b') && m'.offset == m.offset && m'.size > 0
            && forall j | 0 <= j < |b'| :: b'[j] in b
  {
  }

  lemma JoinRightBytes(m: Span, b: seq<Span>, x: int)
    requires b != [] ==> b[0].size > 0
    ensures var (m', b') := JoinRight(m, b);
            && (InSpan(m', x) || IsFree(b', x) <==> InSpan(m, x) || IsFree(b, x))
            && m'.size + FreeBytes(b') == m.size + FreeBytes(b)
  {
    if b != [] {
      assert b == [] + [b[0]] + b[1..];
      ThreeParts([], b[0], b[1..], x);
    }
  }

  lemma JoinLeftShape(a: seq<Span>, m: Span)
    requires Canonical(a) && m.size > 0 && forall j | 0 <= j < |a| :: a[j].offset + a[j].size <= m.offset
    ensures var (a', m') := JoinLeft(a, m);
            Canonical(a') && Before(a', [m']) && m'.size > 0
            && m'.offset + m'.size == m.offset + m.size
            && forall j | 0 <= j < |a'| :: a'[j] in a
  {
  }

  lemma JoinLeftBytes(a: seq<Span>, m: Span, x: int)
    ensures var (a', m') := JoinLeft(a, m);
            && (InSpan(m', x) || IsFree(a', x) <==> InSpan(m, x) || IsFree(a, x))
            && m'.size + FreeBytes(a') == m.size + FreeBytes(a)
  {
    var n := |a|;
    if n > 0 {
      assert a == a[..n - 1] + [a[n - 1]] + [];
      ThreePartsBytes(a[..n - 1], [a[n - 1]], []);
      ThreeParts(a[..n - 1], a[n - 1], [], x);
    }
  }

  lemma FreedCanonical(free: seq<Span>, s: Span)
    requires Canonical(free) && Separate(free, s)
    ensures Canonical(Freed(free, s))
  {
    var i := LowerBound(free, s.offset);
    SplitAt(free, s, i);
    JoinRightShape(s, free[i..]);
    var (m, b) := JoinRight(s, free[i..]);
    JoinedCanonical(free[..i], m, b, free[i..]);
  }

  lemma JoinedCanonical(a0: seq<Span>, m: Span, b: seq<Span>, b0: seq<Span>)
    requires Canonical(a0) && m.size > 0 && forall j | 0 <= j < |a0| :: a0[j].offset + a0[j].size <= m.offset
    requires Canonical(b) && Before([m], b) && Before(a0, b0) && forall j | 0 <= j < |b| :: b[j] in b0
    ensures var (a, m') := JoinLeft(a0, m); Canonical(a + [m'] + b)
  {
    var (a, m') := JoinLeft(a0, m);
    JoinLeftShape(a0, m);
    BeforeWithin(a0, b0, a, b);
    assert [m][0] == m && [m'][0] == m';
    assert Before([m'], b);
    CanonicalThree(a, m', b);
  }

  lemma SliceCanonical(free: seq<Span>, i: nat)
    requires Canonical(free) && i <= |free|
    ensures Canonical(free[..i]) && Canonical(free[i..]) && Before(free[..i], free[i..])
  {
  }

  lemma SplitAt(free: seq<Span>, s: Span, i: nat)
    requires Canonical(free) && Separate(free, s) && i == LowerBound(free, s.offset)
    ensures Canonical(free[..i]) && Canonical(free[i..]) && Before(free[..i], free[i..])
    ensures forall j | 0 <= j < i :: free[..i][j].offset + free[..i][j].size <= s.offset
    ensures forall j | 0 <= j < |free[i..]| :: s.offset + s.size <= free[i..][j].offset
  {
    SliceCanonical(free, i);
    forall j | 0 <= j < |free[i..]| ensures s.offset + s.size <= free[i..][j].offset {
      assert free[i..][j] == free[i + j];
      if j > 0 { assert free[i].offset + free[i].size < free[i + j].offset; }
    }
    forall j | 0 <= j < i ensures free[..i][j].offset + free[..i][j].size <= s.offset {
      assert free[..i][j] == free[j] && free[j].offset < s.offset;
    }
  }

  lemma BeforeWithin(a0: seq<Span>, b0: seq<Span>, a: seq<Span>, b: seq<Span>)
    requires Before(a0, b0)
    requires forall i | 0 <= i < |a| :: a[i] in a0
    requires forall j | 0 <= j < |b| :: b[j] in b0
    ensures Before(a, b)
  {
  }

  lemma CanonicalThree(a: seq<Span>, m: Span, b: seq<Span>)
    requires Canonical(a) && Canonical(b) && m.size > 0
    requires Before(a, [m]) && Before([m], b) && Before(a, b)
    ensures Canonical(a + [m] + b)
  {
    assert forall i | 0 <= i < |a| :: a[i].offset + a[i].size < [m][0].offset;
    assert forall j | 0 <= j < |b| :: [m][0].offset + [m][0].size < b[j].offset;
    CanonicalConcat(a, [m]);
    CanonicalConcat(a + [m], b);
  }

  /** Freeing adds exactly the bytes of `s` to the free list. */
  lemma FreedCoverage(free: seq<Span>, s: Span, x: int)
    requires Canonical(free) && Separate(free, s)
    ensures IsFree(Freed(free, s), x) <==> IsFree(free, x) || InSpan(s, x)
    ensures FreeBytes(Freed(free, s)) == FreeBytes(free) + s.size
  {
    var i := LowerBound(free, s.offset);
    var a0, b0 := free[..i], free[i..];
    assert free == a0 + b0;
    var (m, b) := JoinRight(s, b0);
    JoinRightBytes(s, b0, x);
    var (a, m') := JoinLeft(a0, m);
    JoinLeftBytes(a0, m, x);
    ThreePartsBytes(a, [m'], b);
    FreeBytesConcat(a0, b0);
    ThreeParts(a, m', b, x);
    FreeConcat(a0, b0, x);
  }

  /** `free'` covers the bytes of `free` and of `s`, and is maximally coalesced. */
  ghost predicate Returned(free: seq<Span>, s: Span, free': seq<Span>) {
    && Canonical(free')
    && (forall x :: IsFree(free', x) <==> IsFree(free, x) || InSpan(s, x))
    && FreeBytes(free') == FreeBytes(free) + s.size
    && forall i | 0 <= i < |free'| :: AlignedSpan(free'[i])
  }

  /** `s` may be returned to the free list: aligned, and free nowhere. */
  ghost predicate Freeable(free: seq<Span>, s: Span) {
    && Canonical(free) && Separate(free, s)
    && (forall i | 0 <= i < |free| :: AlignedSpan(free[i])) && AlignedSpan(s)
  }

  lemma FreedReturned(free: seq<Span>, s: Span)
    requires Freeable(free, s)
    ensures Returned(free, s, Freed(free, s))
  {
    FreedCanonical(free, s);
    FreedCoverage(free, s, 0);
    FreedAligned(free, s);
    forall x ensures IsFree(Freed(free, s), x) <==> IsFree(free, x) || InSpan(s, x) {
      FreedCoverage(free, s, x);
    }
  }

  /** Removing a live block and freeing its bytes keeps the tiling. */
  lemma FreeKeepsTiling(capacity: nat, free: seq<Span>, live: LiveMap, o: nat, free': seq<Span>)
    requires TiledBy(capacity, free, live) && o in live && Returned(free, Span(o, live[o].rounded), free')
    ensures TiledBy(capacity, free', live - {o})
  {
    var s := Span(o, live[o].rounded);
    var live' := live - {o};
    SumSplit(live, Rounded, o);
    forall x | 0 <= x < capacity ensures IsFree(free', x) <==> !IsLive(live', x) {
      LiveShrunk(live, o, x);
    }
    forall i | 0 <= i < |free'| ensures free'[i].offset + free'[i].size <= capacity {
      var last := free'[i].offset + free'[i].size - 1;
      assert InSpan(free'[i], last);
      assert IsFree(free, last) || InSpan(s, last);
    }
  }

  lemma LiveIsSeparate(capacity: nat, free: seq<Span>, live: LiveMap, o: nat)
    requires TiledBy(capacity, free, live) && o in live
    ensures live[o].rounded > 0 && Freeable(free, Span(o, live[o].rounded))
  {
    var end := o + live[o].rounded;
    forall i | 0 <= i < |free| ensures free[i].offset + free[i].size <= o || end <= free[i].offset {
      var x := if free[i].offset < o then o else free[i].offset;
      assert InSpan(free[i], x) ==> IsFree(free, x);
      assert x < end ==> IsLive(live, x);
    }
  }

  lemma FreedAligned(free: seq<Span>, s: Span)
    requires AlignedSpan(s) && forall i | 0 <= i < |free| :: AlignedSpan(free[i])
    ensures forall i | 0 <= i < |Freed(free, s)| :: AlignedSpan(Freed(free, s)[i])
  {
    hide LowerBound;
    var i := LowerBound(free, s.offset);
    RightAligned(s, free[i..]);
    var (m, b) := JoinRight(s, free[i..]);
    LeftAligned(free[..i], m);
  }

  lemma RightAligned(m: Span, b: seq<Span>)
    requires AlignedSpan(m) && forall i | 0 <= i < |b| :: AlignedSpan(b[i])
    ensures var (m', b') := JoinRight(m, b); AlignedSpan(m') && forall i | 0 <= i < |b'| :: AlignedSpan(b'[i])
  {
    if b != [] { AlignedSum(m.size, b[0].size); }
    hide AlignedSpan;
  }

  lemma LeftAligned(a: seq<Span>, m: Span)
    requires AlignedSpan(m) && forall i | 0 <= i < |a| :: AlignedSpan(a[i])
    ensures var (a', m') := JoinLeft(a, m); AlignedSpan(m') && forall i | 0 <= i < |a'| :: AlignedSpan(a'[i])
  {
    if a != [] { AlignedSum(a[|a| - 1].size, m.size); }
  }

  lemma LiveShrunk(live: LiveMap, o: nat, x: int)
    requires Disjoint(live) && o in live
    ensures IsLive(live - {o}, x) <==> IsLive(live, x) && !(o <= x < o + live[o].rounded)
  {
    var live' := live - {o};
    if IsLive(live, x) && !(o <= x < o + live[o].rounded) {
      var p :| p in live && p <= x < p + live[p].rounded;
      assert p in live' && live'[p] == live[p];
    }
    if IsLive(live', x) {
      var p :| p in live' && p <= x < p + live'[p].rounded;
      assert p in live && p != o;
      assert p < o || o < p;
    }
  }

  // ---------------------------------------------------------------- the invariant

  /** The maximally coalesced free list and the live blocks tile the arena, byte for byte. */
  ghost predicate TiledBy(capacity: nat, free: seq<Span>, live: LiveMap) {
    && Canonical(free) && Aligned(free, live) && Tiles(capacity, free, live)
    && FreeBytes(free) + Sum(live, Rounded) == capacity
  }

  /** The running totals and per-tag maps are the sums over the live blocks. */
  ghost predicate AccountedBy(live: LiveMap, total: nat, count: nat, tagBytes: map<Tag, nat>,
                              tagBlocks: map<Tag, nat>) {
    && (forall o | o in live :: live[o].requested <= live[o].rounded)
    && total == Sum(live, Requested)
    && count == |live|
    && (forall t :: Lookup(tagBytes, t) == Sum(live, TagRequested(t)))
    && (forall t :: Lookup(tagBlocks, t) == Sum(live, TagOne(t)))
  }

  lemma TakeKeepsTiling(capacity: nat, free: seq<Span>, live: LiveMap, i: nat, needed: nat, r: AllocRecord)
    requires TiledBy(capacity, free, live)
    requires i < |free| && 0 < needed <= free[i].size && needed % ALIGNMENT == 0 && r.rounded == needed
    ensures free[i].offset !in live
    ensures TiledBy(capacity, Taken(free, i, needed), live[free[i].offset := r])
  {
    TakenCanonical(free, i, needed);
    TakenBytes(free, i, needed);
    TakenTiles(capacity, free, live, i, needed, r);
    TakenAligned(free, live, i, needed, r);
    SumExtend(live, Rounded, free[i].offset, r);
  }

  lemma AddAccounts(live: LiveMap, o: nat, r: AllocRecord,
                    total: nat, count: nat, tagBytes: map<Tag, nat>, tagBlocks: map<Tag, nat>)
    requires AccountedBy(live, total, count, tagBytes, tagBlocks)
    requires o !in live && r.requested <= r.rounded
    ensures AccountedBy(live[o := r], total + r.requested, count + 1,
                        tagBytes[r.tag := Lookup(tagBytes, r.tag) + r.requested],
                        tagBlocks[r.tag := Lookup(tagBlocks, r.tag) + 1])
  {
    hide Sum, Lookup;
    SumExtend(live, Requested, o, r);
    forall t
      ensures Lookup(tagBytes[r.tag := Lookup(tagBytes, r.tag) + r.requested], t) == Sum(live[o := r], TagRequested(t))
      ensures Lookup(tagBlocks[r.tag := Lookup(tagBlocks, r.tag) + 1], t) == Sum(live[o := r], TagOne(t))
    {
      assert Lookup(tagBytes, t) == Sum(live, TagRequested(t)) && Lookup(tagBlocks, t) == Sum(live, TagOne(t));
      TagExtend(live, o, r, tagBytes, tagBlocks, t);
    }
  }

  /** The counters of one tag after an allocation. */
  lemma TagExtend(live: LiveMap, o: nat, r: AllocRecord, tagBytes: map<Tag, nat>, tagBlocks: map<Tag, nat>, t: Tag)
    requires o !in live
    requires Lookup(tagBytes, t) == Sum(live, TagRequested(t)) && Lookup(tagBlocks, t) == Sum(live, TagOne(t))
    ensures Lookup(tagBytes[r.tag := Lookup(tagBytes, r.tag) + r.requested], t) == Sum(live[o := r], TagRequested(t))
    ensures Lookup(tagBlocks[r.tag := Lookup(tagBlocks, r.tag) + 1], t) == Sum(live[o := r], TagOne(t))
  {
    SumExtend(live, TagRequested(t), o, r);
    SumExtend(live, TagOne(t), o, r);
    hide Sum;
  }

  /** A tag counter after `amount` is taken off it; a counter that reaches zero is erased. */
  function Deducted(m: map<Tag, nat>, t: Tag, amount: nat): map<Tag, nat>
    requires t in m ==> amount <= m[t]
  {
    if t !in m then m
    else if m[t] == amount then m - {t} else m[t := m[t] - amount]
  }

  /** Every total goes down by what removing one block takes off the sum it stands for. */
  lemma RemoveAccounts(live: LiveMap, o: nat,
                       total: nat, count: nat, tagBytes: map<Tag, nat>, tagBlocks: map<Tag, nat>)
    requires AccountedBy(live, total, count, tagBytes, tagBlocks) && o in live
    ensures live[o].requested <= total && 1 <= count
    ensures live[o].tag in tagBytes ==> live[o].requested <= tagBytes[live[o].tag]
    ensures live[o].tag in tagBlocks ==> 1 <= tagBlocks[live[o].tag]
    ensures AccountedBy(live - {o}, total - live[o].requested, count - 1,
                        Deducted(tagBytes, live[o].tag, live[o].requested),
                        Deducted(tagBlocks, live[o].tag, 1))
  {
    SumSplit(live, Requested, o);
    var tag := live[o].tag;
    SumSplit(live, TagRequested(tag), o);
    SumSplit(live, TagOne(tag), o);
    assert Lookup(tagBytes, tag) == Sum(live, TagRequested(tag));
    assert Lookup(tagBlocks, tag) == Sum(live, TagOne(tag));
    forall t ensures Lookup(Deducted(tagBytes, tag, live[o].requested), t) == Sum(live - {o}, TagRequested(t)) {
      SumSplit(live, TagRequested(t), o);
      assert Lookup(tagBytes, t) == Sum(live, TagRequested(t));
    }
    forall t ensures Lookup(Deducted(tagBlocks, tag, 1), t) == Sum(live - {o}, TagOne(t)) {
      SumSplit(live, TagOne(t), o);
      assert Lookup(tagBlocks, t) == Sum(live, TagOne(t));
    }
    assert (live - {o}).Keys == live.Keys - {o};
  }

  /** The blocks left once every block of a tag is gone. */
  function Without(live: LiveMap, tag: Tag): LiveMap { map o | o in live && live[o].tag != tag :: live[o] }

  /** A sweep of one tag's blocks on the way: some are gone, those not looked at are in `todo`, the rest are others'. */
  ghost predicate Sweeping(before: LiveMap, live: LiveMap, todo: set<nat>, tag: Tag) {
    && todo <= live.Keys <= before.Keys && (forall o | o in live :: live[o] == before[o])
    && (forall o | o in before && o !in live :: before[o].tag == tag)
    && forall o | o in live && o !in todo :: live[o].tag != tag
  }

  lemma SweepStarts(live: LiveMap, tag: Tag)
    ensures Sweeping(live, live, live.Keys, tag)
  {
  }

  lemma SweepStep(before: LiveMap, live: LiveMap, todo: set<nat>, tag: Tag, o: nat)
    requires Sweeping(before, live, todo, tag) && o in todo
    ensures o in live
    ensures Sweeping(before, if live[o].tag == tag then live - {o} else live, todo - {o}, tag)
  {
  }

  lemma GrandTotals(live: LiveMap, total: nat, count: nat, tagBytes: map<Tag, nat>, tagBlocks: map<Tag, nat>)
    requires AccountedBy(live, total, count, tagBytes, tagBlocks)
    ensures total == Sum(live, Requested) && count == |live|
  {
    hide Sum;
  }

  lemma SweepEnds(before: LiveMap, live: LiveMap, tag: Tag)
    requires Sweeping(before, live, {}, tag)
    ensures live == Without(before, tag)
  {
  }

  lemma {:induction false} UntaggedSum(live: LiveMap, tag: Tag)
    requires forall o | o in live :: live[o].tag != tag
    ensures Sum(live, TagRequested(tag)) == 0 && Sum(live, TagOne(tag)) == 0
    decreases |live|
  {
    if live != map[] {
      var o :| o in live;
      SumSplit(live, TagRequested(tag), o);
      SumSplit(live, TagOne(tag), o);
      UntaggedSum(live - {o}, tag);
    }
  }

  /** Dropping a tag's blocks leaves every other tag's sums alone. */
  lemma {:induction false} OtherTagsKept(live: LiveMap, tag: Tag, t: Tag)
    requires t != tag
    ensures Sum(Without(live, tag), TagRequested(t)) == Sum(live, TagRequested(t))
    ensures Sum(Without(live, tag), TagOne(t)) == Sum(live, TagOne(t))
    decreases |live|
  {
    if live == map[] {
      assert Without(live, tag) == map[];
    } else {
      var o :| o in live;
      var rest := live - {o};
      OtherTagsKept(rest, tag, t);
      SumSplit(live, TagRequested(t), o);
      SumSplit(live, TagOne(t), o);
      if live[o].tag == tag {
        assert Without(live, tag) == Without(rest, tag);
      } else {
        assert Without(live, tag) - {o} == Without(rest, tag);
        SumSplit(Without(live, tag), TagRequested(t), o);
        SumSplit(Without(live, tag), TagOne(t), o);
      }
    }
  }

  /** Erasing a tag's counters matches dropping its blocks. */
  lemma EraseTag(live: LiveMap, total: nat, count: nat, tagBytes: map<Tag, nat>, tagBlocks: map<Tag, nat>,
                 tag: Tag, total': nat, count': nat)
    requires AccountedBy(live, total, count, tagBytes, tagBlocks)
    requires total' == Sum(Without(live, tag), Requested) && count' == |Without(live, tag)|
    ensures AccountedBy(Without(live, tag), total', count', tagBytes - {tag}, tagBlocks - {tag})
  {
    var left := Without(live, tag);
    UntaggedSum(left, tag);
    forall t ensures Lookup(tagBytes - {tag}, t) == Sum(left, TagRequested(t))
             ensures Lookup(tagBlocks - {tag}, t) == Sum(left, TagOne(t)) {
      if t != tag {
        OtherTagsKept(live, tag, t);
        assert Lookup(tagBytes, t) == Sum(live, TagRequested(t));
        assert Lookup(tagBlocks, t) == Sum(live, TagOne(t));
      }
    }
  }

  // ---------------------------------------------------------------- what the totals mean

  /** The 64-bit totals cannot overflow: granted requests never exceed the arena. */
  lemma TotalsBounded(capacity: nat, free: seq<Span>, live: LiveMap, total: nat, count: nat,
                      tagBytes: map<Tag, nat>, tagBlocks: map<Tag, nat>)
    requires TiledBy(capacity, free, live) && AccountedBy(live, total, count, tagBytes, tagBlocks)
    ensures total <= capacity - FreeBytes(free)
    ensures forall t :: Lookup(tagBytes, t) <= total
  {
    SumMonotone(live, Requested, Rounded);
    forall t ensures Lookup(tagBytes, t) <= total {
      SumMonotone(live, TagRequested(t), Requested);
      assert Lookup(tagBytes, t) == Sum(live, TagRequested(t));
    }
  }

  ghost function SumOverTags(live: LiveMap, tags: set<Tag>): nat {
    if tags == {} then 0
    else var t :| t in tags; Sum(live, TagRequested(t)) + SumOverTags(live, tags - {t})
  }

  lemma {:induction false} TagsWithout(live: LiveMap, o: nat, tags: set<Tag>)
    requires o in live
    ensures SumOverTags(live, tags) ==
            SumOverTags(live - {o}, tags) + if live[o].tag in tags then live[o].requested else 0
    decreases tags
  {
    if tags != {} {
      var t :| t in tags && SumOverTags(live, tags) == Sum(live, TagRequested(t)) + SumOverTags(live, tags - {t});
      TagsWithout(live, o, tags - {t});
      SumSplit(live, TagRequested(t), o);
      TagSplit(live - {o}, tags, t);
    }
  }

  lemma {:induction false} TagSplit(live: LiveMap, tags: set<Tag>, t: Tag)
    requires t in tags
    ensures SumOverTags(live, tags) == Sum(live, TagRequested(t)) + SumOverTags(live, tags - {t})
    decreases tags
  {
    var u :| u in tags && SumOverTags(live, tags) == Sum(live, TagRequested(u)) + SumOverTags(live, tags - {u});
    if u != t {
      TagSplit(live, tags - {u}, t);
      TagSplit(live, tags - {t}, u);
      assert tags - {u} - {t} == tags - {t} - {u};
    }
  }

  /** The grand total is the sum of the per-tag totals. */
  lemma {:induction false} TotalIsSumOfTags(live: LiveMap, tags: set<Tag>)
    requires forall o | o in live :: live[o].tag in tags
    ensures Sum(live, Requested) == SumOverTags(live, tags)
    decreases |live|
  {
    if live == map[] {
      NoTags(tags);
    } else {
      var o :| o in live;
      SumSplit(live, Requested, o);
      TagsWithout(live, o, tags);
      TotalIsSumOfTags(live - {o}, tags);
    }
  }

  lemma {:induction false} NoTags(tags: set<Tag>)
    ensures SumOverTags(map[], tags) == 0
    decreases tags
  {
    if tags != {} {
      var t :| t in tags;
      TagSplit(map[], tags, t);
      NoTags(tags - {t});
    }
  }

  /** The running counters. */
  datatype Totals = Totals(bytes: nat, blocks: nat, tagBytes: map<Tag, nat>, tagBlocks: map<Tag, nat>)

  /** The counters after a block is counted: byte counters in 64-bit arithmetic. */
  predicate Counted(rec: AllocRecord, a: Totals, b: Totals) {
    && b.bytes == (a.bytes + rec.requested) % WORD && b.blocks == a.blocks + 1
    && b.tagBytes == a.tagBytes[rec.tag := (Lookup(a.tagBytes, rec.tag) + rec.requested) % WORD]
    && b.tagBlocks == a.tagBlocks[rec.tag := Lookup(a.tagBlocks, rec.tag) + 1]
  }

  lemma SizeBounds(capacity: nat, memory: seq<Float32>)
    requires SizedBy(capacity, memory)
    ensures capacity < WORD
  {
  }

  /** A block smaller than its request is never accounted for. */
  lemma OverfullBlock(live: LiveMap, o: nat, total: nat, count: nat, tagBytes: map<Tag, nat>, tagBlocks: map<Tag, nat>)
    requires o in live && live[o].requested > live[o].rounded
    ensures !AccountedBy(live, total, count, tagBytes, tagBlocks)
  {
    hide Sum, Lookup;
  }

  /** Counting a block that holds its request wraps nothing: the totals stay within the arena. */
  lemma ExactCounts(capacity: nat, free: seq<Span>, live: LiveMap, o: nat, r: AllocRecord, total: nat, count: nat,
                    tagBytes: map<Tag, nat>, tagBlocks: map<Tag, nat>)
    requires capacity < WORD && o !in live && TiledBy(capacity, free, live[o := r])
    requires AccountedBy(live, total, count, tagBytes, tagBlocks) && r.requested <= r.rounded
    ensures AccountedBy(live[o := r], (total + r.requested) % WORD, count + 1,
                        tagBytes[r.tag := (Lookup(tagBytes, r.tag) + r.requested) % WORD],
                        tagBlocks[r.tag := Lookup(tagBlocks, r.tag) + 1])
  {
    hide TiledBy, AccountedBy;
    var bytes := tagBytes[r.tag := Lookup(tagBytes, r.tag) + r.requested];
    var blocks := tagBlocks[r.tag := Lookup(tagBlocks, r.tag) + 1];
    AddAccounts(live, o, r, total, count, tagBytes, tagBlocks);
    TotalsBounded(capacity, free, live[o := r], total + r.requested, count + 1, bytes, blocks);
    assert Lookup(bytes, r.tag) <= total + r.requested;
    NoWrap(total + r.requested);
    NoWrap(bytes[r.tag]);
  }

  lemma NoWrap(n: nat)
    requires n < WORD
    ensures n % WORD == n
  {
  }

  /** Whole chunks, addressable, one cell per float. */
  ghost predicate SizedBy(capacity: nat, memory: seq<Float32>) {
    capacity % ALIGNMENT == 0 && capacity < WORD && |memory| == capacity / 4
  }

  class MemoryAllocator {
    const capacity: nat
    var freeByOffset: seq<Span>
    var live: LiveMap
    var totalAllocatedBytes: nat
    var liveBlockCount: nat
    var tagBytes: map<Tag, nat>
    var tagBlocks: map<Tag, nat>

    /** The bytes of the arena, in 4-byte cells. */
    var memory: seq<Float32>

    ghost predicate Valid()
      reads this
    {
      && SizedBy(capacity, memory) && TiledBy(capacity, freeByOffset, live)
      && AccountedBy(live, totalAllocatedBytes, liveBlockCount, tagBytes, tagBlocks)
    }

    constructor (capacityBytes: Size)
      ensures Valid()
      ensures capacity == capacityBytes - capacityBytes % ALIGNMENT
      ensures live == map[] && freeByOffset == if capacity > 0 then [Span(0, capacity)] else []
    {
      var usable := capacityBytes - capacityBytes % ALIGNMENT;
      capacity := usable;
      live, totalAllocatedBytes, liveBlockCount, tagBytes, tagBlocks := map[], 0, 0, map[], map[];
      freeByOffset := [];
      memory := seq(usable / 4, _ => 0);
      new;
      if capacity > 0 {
        freeByOffset := [Span(0, capacity)];
        forall x | 0 <= x < capacity ensures IsFree(freeByOffset, x) {
          assert InSpan(freeByOffset[0], x);
        }
      }
      assert Sum(live, Rounded) == 0;
    }

    /** First fit over the spans in address order; |freeByOffset| when none is large enough. */
    method FirstFit(needed: nat) returns (fit: nat)
      ensures fit <= |freeByOffset|
      ensures forall i | 0 <= i < fit :: freeByOffset[i].size < needed
      ensures fit < |freeByOffset| ==> freeByOffset[fit].size >= needed
    {
      fit := 0;
      while fit < |freeByOffset|
        invariant fit <= |freeByOffset|
        invariant forall i | 0 <= i < fit :: freeByOffset[i].size < needed
      {
        if freeByOffset[fit].size >= needed { return; }
        fit := fit + 1;
      }
    }

    /** Takes the front of span `fit` for a new live block and counts it, in 64-bit arithmetic. */
    method Occupy(fit: nat, rec: AllocRecord)
      requires Valid() && fit < |freeByOffset| && rec.requested < WORD
      requires 0 < rec.rounded <= freeByOffset[fit].size && rec.rounded % ALIGNMENT == 0
      modifies this
      ensures TiledBy(capacity, freeByOffset, live) && memory == old(memory)
      ensures Valid() <==> rec.requested <= rec.rounded
      ensures old(freeByOffset[fit].offset !in live)
      ensures live == old(live[freeByOffset[fit].offset := rec]) && Counted(rec, old(Counters()), Counters())
    {
      hide TiledBy, AccountedBy, SizedBy;
      var offset, tag := freeByOffset[fit].offset, rec.tag;
      TakeKeepsTiling(capacity, freeByOffset, live, fit, rec.rounded, rec);
      CountsExact(fit, rec);
      freeByOffset := Taken(freeByOffset, fit, rec.rounded);
      live := live[offset := rec];
      totalAllocatedBytes, liveBlockCount := (totalAllocatedBytes + rec.requested) % WORD, liveBlockCount + 1;
      tagBytes := tagBytes[tag := (Lookup(tagBytes, tag) + rec.requested) % WORD];
      tagBlocks := tagBlocks[tag := Lookup(tagBlocks, tag) + 1];
    }

    function Counters(): Totals
      reads this
    {
      Totals(totalAllocatedBytes, liveBlockCount, tagBytes, tagBlocks)
    }

    /** Counting a block keeps the counters exact as long as the block holds its request; nothing wraps then. */
    lemma CountsExact(fit: nat, rec: AllocRecord)
      requires Valid() && fit < |freeByOffset| && freeByOffset[fit].offset !in live
      requires TiledBy(capacity, Taken(freeByOffset, fit, rec.rounded), live[freeByOffset[fit].offset := rec])
      ensures AccountedBy(live[freeByOffset[fit].offset := rec], (totalAllocatedBytes + rec.requested) % WORD,
                          liveBlockCount + 1,
                          tagBytes[rec.tag := (Lookup(tagBytes, rec.tag) + rec.requested) % WORD],
                          tagBlocks[rec.tag := Lookup(tagBlocks, rec.tag) + 1])
        <==> rec.requested <= rec.rounded
    {
      hide TiledBy, AccountedBy, SizedBy;
      var offset := freeByOffset[fit].offset;
      if rec.requested <= rec.rounded {
        SizeBounds(capacity, memory);
        ExactCounts(capacity, Taken(freeByOffset, fit, rec.rounded), live, offset, rec, totalAllocatedBytes,
                    liveBlockCount, tagBytes, tagBlocks);
      } else {
        OverfullBlock(live[offset := rec], offset, (totalAllocatedBytes + rec.requested) % WORD, liveBlockCount + 1,
                      tagBytes[rec.tag := (Lookup(tagBytes, rec.tag) + rec.requested) % WORD],
                      tagBlocks[rec.tag := Lookup(tagBlocks, rec.tag) + 1]);
      }
    }

    /** Fails exactly when no free run of the footprint exists; otherwise takes the lowest one. The arena stays tiled
        in every case; a request whose rounding wraps is granted a chunk that does not hold it. */
    method Allocate(bytes: Size, tag: Tag) returns (r: AllocResult)
      requires Valid()
      modifies this
      ensures Valid() <==> r.Exhausted? || bytes <= WORD - ALIGNMENT
      ensures TiledBy(capacity, freeByOffset, live) && memory == old(memory)
      ensures r.Exhausted? ==> unchanged(this) && NoFit(capacity, live, Footprint(bytes))
      ensures r.Granted? ==>
        && r.block.data.At? && r.block.data.displacement >= 0 && r.block.size == bytes
        && var o: nat := r.block.data.displacement;
        && LowestFit(capacity, old(live), Footprint(bytes), o) && o !in old(live)
        && live == old(live)[o := AllocRecord(Footprint(bytes), bytes, tag)]
        && Counted(AllocRecord(Footprint(bytes), bytes, tag), old(Counters()), Counters())
    {
      hide TiledBy, AccountedBy, SizedBy, Counted;
      var needed := RoundUp(bytes);
      if needed == 0 {
        needed := ALIGNMENT;
      }
      FootprintCovers(bytes);
      TilingParts(capacity, freeByOffset, live);
      hide Canonical, Tiles;
      var fit := FirstFit(needed);
      FitChosen(capacity, freeByOffset, live, needed, fit);
      if fit == |freeByOffset| {
        return Exhausted;
      }
      var offset := freeByOffset[fit].offset;
      Occupy(fit, AllocRecord(needed, bytes, tag));
      r := Granted(Block(At(offset), bytes));
    }

    /** Returns [offset, offset + size) to the free list and merges it with adjacent spans. */
    method FreeSpan(offset: nat, size: nat)
      requires size > 0 ==> Freeable(freeByOffset, Span(offset, size))
      modifies this`freeByOffset
      ensures if size == 0 then unchanged(this) else Returned(old(freeByOffset), Span(offset, size), freeByOffset)
    {
      if size == 0 {
        return;
      }
      FreedReturned(freeByOffset, Span(offset, size));
      Coalesce(offset, size);
    }

    /** Emplaces the span, then merges it with the following and the preceding one. */
    method Coalesce(offset: nat, size: nat)
      modifies this`freeByOffset
      ensures freeByOffset == Freed(old(freeByOffset), Span(offset, size))
    {
      var it := LowerBound(freeByOffset, offset);
      ghost var a, s, b := freeByOffset[..it], Span(offset, size), freeByOffset[it..];
      freeByOffset := freeByOffset[..it] + [Span(offset, size)] + freeByOffset[it..];
      assert freeByOffset[..it] == a && freeByOffset[it] == s && freeByOffset[it + 1..] == b;
      MergeNext(it);
      ghost var (m, b') := JoinRight(s, b);
      assert freeByOffset[..it] == a && freeByOffset[it] == m && freeByOffset[it + 1..] == b';
      MergePrevious(it);
    }

    method MergeNext(it: nat)
      requires it < |freeByOffset|
      modifies this`freeByOffset
      ensures var (m, b) := JoinRight(old(freeByOffset)[it], old(freeByOffset)[it + 1..]);
              freeByOffset == old(freeByOffset)[..it] + [m] + b
    {
      var next := it + 1;
      if next < |freeByOffset| && freeByOffset[it].offset + freeByOffset[it].size == freeByOffset[next].offset {
        freeByOffset := freeByOffset[it := freeByOffset[it].(size := freeByOffset[it].size + freeByOffset[next].size)];
        freeByOffset := freeByOffset[..next] + freeByOffset[next + 1..];
      }
    }

    method MergePrevious(it: nat)
      requires it < |freeByOffset|
      modifies this`freeByOffset
      ensures var (a, m) := JoinLeft(old(freeByOffset)[..it], old(freeByOffset)[it]);
              freeByOffset == a + [m] + old(freeByOffset)[it + 1..]
    {
      if it > 0 && freeByOffset[it - 1].offset + freeByOffset[it - 1].size == freeByOffset[it].offset {
        var prev := it - 1;
        freeByOffset :=
          freeByOffset[prev := freeByOffset[prev].(size := freeByOffset[prev].size + freeByOffset[it].size)];
        freeByOffset := freeByOffset[..it] + freeByOffset[it + 1..];
      }
    }

    /** Ignores null, foreign and already released pointers; otherwise undoes one allocation. */
    method Release(block: Block)
      requires Valid()
      modifies this
      ensures Valid() && memory == old(memory)
      ensures live == match block.data { case At(o) => old(live) - {o} case Null => old(live) }
      ensures (block.data.At? && block.data.displacement in old(live)) || unchanged(this)
    {
      if block.data.Null? || capacity == 0 {
        return;
      }
      var ptr := block.data.displacement;
      if ptr < 0 || ptr >= capacity {
        return;
      }
      var offset: nat := ptr;
      if offset !in live {
        return;
      }
      Vacate(offset);
    }

    /** Uncounts a live block and returns its bytes to the free list. */
    method Vacate(offset: nat)
      requires Valid() && offset in live
      modifies this
      ensures Valid() && memory == old(memory) && live == old(live) - {offset}
    {
      hide TiledBy, AccountedBy;
      var rec := live[offset];
      LiveIsSeparate(capacity, freeByOffset, live, offset);
      RemoveAccounts(live, offset, totalAllocatedBytes, liveBlockCount, tagBytes, tagBlocks);
      Forget(rec);
      live := live - {offset};
      FreeSpan(offset, rec.rounded);
      FreeKeepsTiling(capacity, old(freeByOffset), old(live), offset, freeByOffset);
    }

    /** Rolls the running totals back by one block. */
    method Forget(rec: AllocRecord)
      requires rec.requested <= totalAllocatedBytes && 1 <= liveBlockCount
      requires rec.tag in tagBytes ==> rec.requested <= tagBytes[rec.tag]
      requires rec.tag in tagBlocks ==> 1 <= tagBlocks[rec.tag]
      modifies this`totalAllocatedBytes, this`liveBlockCount, this`tagBytes, this`tagBlocks
      ensures totalAllocatedBytes == old(totalAllocatedBytes) - rec.requested
      ensures liveBlockCount == old(liveBlockCount) - 1
      ensures tagBytes == Deducted(old(tagBytes), rec.tag, rec.requested)
      ensures tagBlocks == Deducted(old(tagBlocks), rec.tag, 1)
    {
      totalAllocatedBytes := totalAllocatedBytes - rec.requested;
      liveBlockCount := liveBlockCount - 1;
      if rec.tag in tagBytes {
        tagBytes := tagBytes[rec.tag := tagBytes[rec.tag] - rec.requested];
        if tagBytes[rec.tag] == 0 {
          tagBytes := tagBytes - {rec.tag};
        }
      }
      if rec.tag in tagBlocks {
        tagBlocks := tagBlocks[rec.tag := tagBlocks[rec.tag] - 1];
        if tagBlocks[rec.tag] == 0 {
          tagBlocks := tagBlocks - {rec.tag};
        }
      }
    }

    /** One step of ReleaseAll: frees a block and takes it off the grand totals only. */
    method Sweep(offset: nat)
      requires TiledBy(capacity, freeByOffset, live) && offset in live
      requires totalAllocatedBytes == Sum(live, Requested) && liveBlockCount == |live|
      modifies this`freeByOffset, this`live, this`totalAllocatedBytes, this`liveBlockCount
      ensures TiledBy(capacity, freeByOffset, live) && live == old(live) - {offset}
      ensures totalAllocatedBytes == Sum(live, Requested) && liveBlockCount == |live|
    {
      hide TiledBy, Freeable, Returned;
      var rec := live[offset];
      SumSplit(live, Requested, offset);
      LiveIsSeparate(capacity, freeByOffset, live, offset);
      totalAllocatedBytes := totalAllocatedBytes - rec.requested;
      liveBlockCount := liveBlockCount - 1;
      FreeSpan(offset, rec.rounded);
      assert (live - {offset}).Keys == live.Keys - {offset};
      live := live - {offset};
      FreeKeepsTiling(capacity, old(freeByOffset), old(live), offset, freeByOffset);
    }

    /** Frees every block of a tag, in whatever order the hash map yields them. */
    method SweepAll(tag: Tag)
      requires TiledBy(capacity, freeByOffset, live)
      requires totalAllocatedBytes == Sum(live, Requested) && liveBlockCount == |live|
      modifies this`freeByOffset, this`live, this`totalAllocatedBytes, this`liveBlockCount
      ensures TiledBy(capacity, freeByOffset, live) && live == Without(old(live), tag)
      ensures totalAllocatedBytes == Sum(live, Requested) && liveBlockCount == |live|
    {
      hide TiledBy, Sum, Sweeping, Without;
      ghost var before := live;
      var todo := live.Keys;
      SweepStarts(live, tag);
      while todo != {}
        invariant Sweeping(before, live, todo, tag) && TiledBy(capacity, freeByOffset, live)
        invariant totalAllocatedBytes == Sum(live, Requested) && liveBlockCount == |live|
        decreases |todo|
      {
        var offset :| offset in todo;
        SweepStep(before, live, todo, tag, offset);
        todo := todo - {offset};
        if live[offset].tag == tag {
          Sweep(offset);
        }
      }
      SweepEnds(before, live, tag);
    }

    /** Releases everything a tag owns, and its counters. */
    method ReleaseAll(tag: Tag)
      requires Valid()
      modifies this
      ensures Valid() && memory == old(memory)
      ensures live == Without(old(live), tag)
      ensures tagBytes == old(tagBytes) - {tag} && tagBlocks == old(tagBlocks) - {tag}
    {
      hide TiledBy, AccountedBy, Sum, Without, SizedBy;
      ghost var before, total, count := live, totalAllocatedBytes, liveBlockCount;
      GrandTotals(before, total, count, tagBytes, tagBlocks);
      SweepAll(tag);
      EraseTag(before, total, count, tagBytes, tagBlocks, tag, totalAllocatedBytes, liveBlockCount);
      tagBytes, tagBlocks := tagBytes - {tag}, tagBlocks - {tag};
    }

    method Stats() returns (s: AllocStats)
      requires Valid()
      ensures s == AllocStats(Sum(live, Requested), |live|)
    {
      s := AllocStats(totalAllocatedBytes, liveBlockCount);
    }

    method StatsOf(tag: Tag) returns (s: AllocStats)
      requires Valid()
      ensures s == AllocStats(Sum(live, TagRequested(tag)), Sum(live, TagOne(tag)))
    {
      s := AllocStats(0, 0);
      if tag in tagBytes {
        s := s.(totalAllocatedBytes := tagBytes[tag]);
      }
      if tag in tagBlocks {
        s := s.(liveBlockCount := tagBlocks[tag]);
      }
      assert Lookup(tagBytes, tag) == Sum(live, TagRequested(tag));
      assert Lookup(tagBlocks, tag) == Sum(live, TagOne(tag));
    }
  }

  lemma TilingParts(capacity: nat, free: seq<Span>, live: LiveMap)
    requires TiledBy(capacity, free, live)
    ensures Canonical(free) && Tiles(capacity, free, live)
  {
    hide Canonical, Tiles;
  }

  /** What the scan of the free list decides about all runs of the arena. */
  lemma FitChosen(capacity: nat, free: seq<Span>, live: LiveMap, needed: nat, fit: nat)
    requires Canonical(free) && Tiles(capacity, free, live) && needed > 0 && fit <= |free|
    requires forall i | 0 <= i < fit :: free[i].size < needed
    requires fit < |free| ==> free[fit].size >= needed
    ensures fit == |free| ==> NoFit(capacity, live, needed)
    ensures fit < |free| ==> LowestFit(capacity, live, needed, free[fit].offset)
  {
    forall x | Fits(capacity, live, x, needed) ensures fit < |free| && free[fit].offset <= x {
      FitsIffInSpan(capacity, free, live, x, needed);
      var i :| 0 <= i < |free| && free[i].offset <= x && x + needed <= free[i].offset + free[i].size;
      assert fit <= i;
    }
    if fit < |free| {
      FitsIffInSpan(capacity, free, live, free[fit].offset, needed);
    }
  }
}
