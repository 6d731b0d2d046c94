/** The address space of the arena: spans, live blocks, and the tiling of one by the other. */
module Arena {
  const ALIGNMENT: nat := 64

  /** One past the largest std::size_t. */
  const WORD: nat := 0x1_0000_0000_0000_0000

  type Size = n: int | 0 <= n < WORD
  type Tag = nat

  /** An entry offset -> size of the free list. */
  datatype Span = Span(offset: nat, size: nat)

  /** An outstanding allocation, keyed elsewhere by its offset. */
  datatype AllocRecord = AllocRecord(rounded: nat, requested: nat, tag: Tag)

  type LiveMap = map<nat, AllocRecord>

  // ---------------------------------------------------------------- rounding

  /** (bytes + 63) & ~63 in 64-bit arithmetic. */
  function RoundUp(bytes: Size): Size { (bytes + 63) % WORD / ALIGNMENT * ALIGNMENT }

  /** The arena bytes an allocation occupies: a zero-byte request still takes one chunk. */
  function Footprint(bytes: Size): nat { if RoundUp(bytes) == 0 then ALIGNMENT else RoundUp(bytes) }

  /** The footprint is a positive multiple of 64, it holds the request exactly when the rounding does not wrap, and then
      it is the smallest such multiple. */
  lemma FootprintCovers(bytes: Size)
    ensures Footprint(bytes) % 64 == 0 && Footprint(bytes) > 0
    ensures bytes <= Footprint(bytes) <==> bytes <= 0x1_0000_0000_0000_0000 - 64
    ensures bytes <= 0x1_0000_0000_0000_0000 - 64 ==>
      Footprint(bytes) < bytes + 64 || (bytes == 0 && Footprint(0) == 64)
  {
    if bytes <= WORD - ALIGNMENT {
      assert (bytes + 63) % WORD == bytes + 63;
    } else {
      assert (bytes + 63) % WORD == bytes + 63 - WORD;
    }
  }

  /** The failing input: the largest size_t is granted a 64-byte block. */
  lemma WrappedRequest()
    ensures Footprint(WORD - 1) == 64
  {
  }

  // ---------------------------------------------------------------- coverage

  predicate InSpan(s: Span, x: int) { s.offset <= x < s.offset + s.size }

  ghost predicate IsFree(free: seq<Span>, x: int) { exists i | 0 <= i < |free| :: InSpan(free[i], x) }

  ghost predicate IsLive(live: LiveMap, x: int) { exists o | o in live :: o <= x < o + live[o].rounded }

  /** Address-ordered with a live gap between any two spans: maximal coalescing. */
  ghost predicate Canonical(free: seq<Span>) {
    && (forall i | 0 <= i < |free| :: free[i].size > 0)
    && (forall i, j | 0 <= i < j < |free| :: free[i].offset + free[i].size < free[j].offset)
  }

  predicate AlignedSpan(s: Span) { s.offset % ALIGNMENT == 0 && s.size % ALIGNMENT == 0 }

  /** Adjacent aligned spans join to an aligned one. */
  lemma AlignedSum(a: nat, b: nat)
    requires a % ALIGNMENT == 0 && b % ALIGNMENT == 0
    ensures (a + b) % ALIGNMENT == 0
  {
  }

  lemma AlignedRest(a: nat, b: nat)
    requires a % ALIGNMENT == 0 && b % ALIGNMENT == 0 && b <= a
    ensures (a - b) % ALIGNMENT == 0
  {
  }

  ghost predicate Aligned(free: seq<Span>, live: LiveMap) {
    && (forall i | 0 <= i < |free| :: AlignedSpan(free[i]))
    && (forall o | o in live :: o % ALIGNMENT == 0 && live[o].rounded % ALIGNMENT == 0)
  }

  ghost predicate Disjoint(live: LiveMap) {
    forall o, p | o in live && p in live && o < p :: o + live[o].rounded <= p
  }

  /** Free spans and live blocks together cover [0, capacity) with no byte in both. */
  ghost predicate Tiles(capacity: nat, free: seq<Span>, live: LiveMap) {
    && Disjoint(live)
    && (forall o | o in live :: live[o].rounded > 0 && o + live[o].rounded <= capacity)
    && (forall i | 0 <= i < |free| :: free[i].offset + free[i].size <= capacity)
    && (forall x | 0 <= x < capacity :: IsFree(free, x) <==> !IsLive(live, x))
  }

  lemma FreeConcat(a: seq<Span>, b: seq<Span>, x: int)
    ensures IsFree(a + b, x) <==> IsFree(a, x) || IsFree(b, x)
  {
    if IsFree(a, x) {
      var i :| 0 <= i < |a| && InSpan(a[i], x);
      assert InSpan((a + b)[i], x);
    }
    if IsFree(b, x) {
      var i :| 0 <= i < |b| && InSpan(b[i], x);
      assert InSpan((a + b)[|a| + i], x);
    }
  }

  /** A contiguous free run lies inside a single span. */
  lemma RunInOneSpan(free: seq<Span>, x: int, n: nat) returns (i: nat)
    requires Canonical(free) && n > 0
    requires forall y | x <= y < x + n :: IsFree(free, y)
    ensures i < |free| && free[i].offset <= x && x + n <= free[i].offset + free[i].size
  {
    assert IsFree(free, x);
    i :| 0 <= i < |free| && InSpan(free[i], x);
    var end := free[i].offset + free[i].size;
    if end < x + n {
      assert IsFree(free, end);
      var j :| 0 <= j < |free| && InSpan(free[j], end);
    }
  }

  lemma FirstIsFree(free: seq<Span>)
    requires Canonical(free)
    ensures if free == [] then forall x :: !IsFree(free, x) else IsFree(free, free[0].offset) && Canonical(free[1..])
  {
    if free != [] { assert InSpan(free[0], free[0].offset); }
  }

  /** Two maximally coalesced lists that cover the same bytes are the same list. */
  lemma {:induction false} FreeListUnique(f: seq<Span>, g: seq<Span>)
    requires Canonical(f) && Canonical(g)
    requires forall x :: IsFree(f, x) <==> IsFree(g, x)
    ensures f == g
    decreases |f|
  {
    hide IsFree, Canonical;
    FirstIsFree(f);
    FirstIsFree(g);
    if f != [] && g != [] {
      SameHead(f, g);
      SameHead(g, f);
      var f', g' := f[1..], g[1..];
      forall x ensures IsFree(f', x) <==> IsFree(g', x) {
        TailCoverage(f, x);
        TailCoverage(g, x);
      }
      FreeListUnique(f', g');
      assert f == [f[0]] + f' && g == [g[0]] + g';
    }
  }

  /** The first span of `f` starts no earlier, and reaches no further, than that of `g`. */
  lemma SameHead(f: seq<Span>, g: seq<Span>)
    requires Canonical(f) && Canonical(g) && f != [] && g != []
    requires forall x :: IsFree(f, x) <==> IsFree(g, x)
    ensures g[0].offset <= f[0].offset
    ensures f[0].offset == g[0].offset ==> f[0].size <= g[0].size
  {
    assert InSpan(f[0], f[0].offset);
    assert IsFree(g, f[0].offset);
    if f[0].offset == g[0].offset {
      forall y | f[0].offset <= y < f[0].offset + f[0].size ensures IsFree(g, y) {
        assert InSpan(f[0], y);
      }
      var i := RunInOneSpan(g, f[0].offset, f[0].size);
    }
  }

  lemma TailCoverage(f: seq<Span>, x: int)
    requires Canonical(f) && f != []
    ensures IsFree(f[1..], x) <==> IsFree(f, x) && !InSpan(f[0], x)
  {
    FreeConcat([f[0]], f[1..], x);
    assert f == [f[0]] + f[1..];
    if IsFree(f[1..], x) {
      var i :| 0 <= i < |f[1..]| && InSpan(f[1..][i], x);
      assert f[0].offset + f[0].size < f[i + 1].offset;
    }
    if InSpan(f[0], x) { assert InSpan([f[0]][0], x); }
  }

  /** The free list is a function of the live set. */
  lemma FreeListDetermined(capacity: nat, live: LiveMap, f: seq<Span>, g: seq<Span>)
    requires Canonical(f) && Canonical(g) && Tiles(capacity, f, live) && Tiles(capacity, g, live)
    ensures f == g
  {
    forall x ensures IsFree(f, x) <==> IsFree(g, x) {
      if 0 <= x < capacity {
        assert IsFree(f, x) <==> !IsLive(live, x);
      }
    }
    FreeListUnique(f, g);
  }

  // ---------------------------------------------------------------- fitting a request

  /** [x, x + n) is inside the arena and no byte of it is live. */
  ghost predicate Fits(capacity: nat, live: LiveMap, x: int, n: nat) {
    && 0 <= x && x + n <= capacity
    && forall y | x <= y < x + n :: !IsLive(live, y)
  }

  /** No run of `n` free bytes exists anywhere in the arena. */
  ghost predicate NoFit(capacity: nat, live: LiveMap, n: nat) { forall x :: !Fits(capacity, live, x, n) }

  /** The lowest address at which `n` free bytes start. */
  ghost predicate LowestFit(capacity: nat, live: LiveMap, n: nat, o: nat) {
    Fits(capacity, live, o, n) && forall x | Fits(capacity, live, x, n) :: o <= x
  }

  /** A run fits exactly when some span of the free list contains it. */
  lemma FitsIffInSpan(capacity: nat, free: seq<Span>, live: LiveMap, x: int, n: nat)
    requires Canonical(free) && Tiles(capacity, free, live) && n > 0
    ensures Fits(capacity, live, x, n) <==>
            exists i | 0 <= i < |free| :: free[i].offset <= x && x + n <= free[i].offset + free[i].size
  {
    if Fits(capacity, live, x, n) {
      forall y | x <= y < x + n ensures IsFree(free, y) {
        assert !IsLive(live, y);
      }
      var i := RunInOneSpan(free, x, n);
    }
    if i :| 0 <= i < |free| && free[i].offset <= x && x + n <= free[i].offset + free[i].size {
      forall y | x <= y < x + n ensures !IsLive(live, y) {
        assert InSpan(free[i], y);
        assert IsFree(free, y);
      }
    }
  }

  // ---------------------------------------------------------------- accounting

  /** What a total counts of each live block. */
  datatype Weight = Rounded | Requested | One | TagRequested(tag: Tag) | TagOne(tag: Tag)

  function Weigh(w: Weight, r: AllocRecord): nat {
    match w
    case Rounded => r.rounded
    case Requested => r.requested
    case One => 1
    case TagRequested(t) => if r.tag == t then r.requested else 0
    case TagOne(t) => if r.tag == t then 1 else 0
  }

  /** The sum of a weight over all live blocks. */
  ghost function Sum(live: LiveMap, w: Weight): nat {
    if live == map[] then 0
    else var o :| o in live; Weigh(w, live[o]) + Sum(live - {o}, w)
  }

  /** Any block can be split off the sum, not only the one the definition picks. */
  lemma {:induction false} SumSplit(live: LiveMap, w: Weight, o: nat)
    requires o in live
    ensures Sum(live, w) == Weigh(w, live[o]) + Sum(live - {o}, w)
    decreases |live|
  {
    var p :| p in live && Sum(live, w) == Weigh(w, live[p]) + Sum(live - {p}, w);
    if p != o {
      var a, b := live - {p}, live - {o};
      SumSplit(a, w, o);
      SumSplit(b, w, p);
      assert a - {o} == b - {p};
    }
  }

  lemma SumExtend(live: LiveMap, w: Weight, o: nat, r: AllocRecord)
    requires o !in live
    ensures Sum(live[o := r], w) == Weigh(w, r) + Sum(live, w)
  {
    SumSplit(live[o := r], w, o);
    assert live[o := r] - {o} == live;
  }

  lemma {:induction false} SumMonotone(live: LiveMap, v: Weight, w: Weight)
    requires forall o | o in live :: Weigh(v, live[o]) <= Weigh(w, live[o])
    ensures Sum(live, v) <= Sum(live, w)
    decreases |live|
  {
    if live != map[] {
      var o :| o in live;
      SumSplit(live, v, o);
      SumSplit(live, w, o);
      SumMonotone(live - {o}, v, w);
    }
  }

  ghost function FreeBytes(free: seq<Span>): nat {
    if free == [] then 0 else free[0].size + FreeBytes(free[1..])
  }

  lemma {:induction false} FreeBytesConcat(a: seq<Span>, b: seq<Span>)
    ensures FreeBytes(a + b) == FreeBytes(a) + FreeBytes(b)
  {
    if a == [] {
      assert a + b == b;
    } else {
      FreeBytesConcat(a[1..], b);
      assert (a + b)[1..] == a[1..] + b;
    }
  }
}
