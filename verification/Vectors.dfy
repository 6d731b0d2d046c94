/** Float32 components as bit patterns, and distances as ranks in the float order. */
module Vectors {
  import opened Ordering
  import opened Identifiers

  /** A float32 by its IEEE-754 bits: sign, 8 exponent bits, 23 fraction bits. */
  type Float32 = b: int | 0 <= b < 0x1_0000_0000
  type Vector = seq<Float32>

  /** std::isfinite: the exponent field is not all ones. */
  predicate IsFinite(f: Float32) { f / 0x80_0000 % 0x100 != 0xFF }

  predicate AllFinite(v: Vector) { forall i | 0 <= i < |v| :: IsFinite(v[i]) }

  /** The exact real number a finite float32 stands for. */
  function Value(f: Float32): real {
    var exponent := f / 0x80_0000 % 0x100;
    var fraction := f % 0x80_0000;
    var magnitude :=
      if exponent == 0 then fraction as real * Pow2(-149)
      else (0x80_0000 + fraction) as real * Pow2(exponent - 150);
    if f < 0x8000_0000 then magnitude else -magnitude
  }

  function Pow2(e: int): real
    decreases if e < 0 then -e else e
  {
    if e == 0 then 1.0 else if e > 0 then 2.0 * Pow2(e - 1) else Pow2(e + 1) / 2.0
  }

  /** A float is finite when the bits below its sign are those of a magnitude below infinity's. */
  lemma FiniteExactly(f: Float32)
    ensures IsFinite(f) <==> f % 0x8000_0000 < 0x7F80_0000
  {
    assert f / 0x80_0000 % 0x100 == f % 0x8000_0000 / 0x80_0000;
  }

  lemma {:induction false} Pow2Step(e: int)
    ensures Pow2(e + 1) == 2.0 * Pow2(e)
    decreases if e < 0 then -e else e
  {
    if e < -1 { Pow2Step(e + 1); }
  }

  lemma {:induction false} Pow2Positive(e: int)
    ensures Pow2(e) > 0.0
    decreases if e < 0 then -e else e
  {
    if e > 0 { Pow2Positive(e - 1); } else if e < 0 { Pow2Positive(e + 1); }
  }

  lemma Longer(x: nat, y: nat, unit: real)
    requires x < y && unit > 0.0
    ensures x as real * unit < y as real * unit
  {
    assert (y as real - x as real) * unit > 0.0;
  }

  lemma NotLess(x: nat, unit: real)
    requires unit > 0.0
    ensures x as real * unit >= 0.0
  {
  }

  lemma ValueParts(e: nat, n: nat)
    requires e < 0xFF && n < 0x80_0000
    ensures Value(e * 0x80_0000 + n)
      == if e == 0 then n as real * Pow2(-149) else (0x80_0000 + n) as real * Pow2(e - 150)
  {
    hide Pow2;
    var f := e * 0x80_0000 + n;
    assert f / 0x80_0000 == e && f % 0x80_0000 == n && f < 0x8000_0000;
    assert f / 0x80_0000 % 0x100 == e;
    assert (0x80_0000 + f % 0x80_0000) as real == (0x80_0000 + n) as real;
    assert (f % 0x80_0000) as real == n as real;
  }

  /** The next larger magnitude is one unit in the last place larger: a unit is 2^(e - 150) under exponent field e, and
      2^-149 under exponent field 0. */
  lemma NextValue(f: Float32)
    requires f + 1 < 0x7F80_0000
    ensures var e := f / 0x80_0000; Value(f + 1) == Value(f) + Pow2(if e == 0 then -149 else e - 150)
  {
    hide Pow2, Value;
    var e, n := f / 0x80_0000, f % 0x80_0000;
    ValueParts(e, n);
    if n < 0x7F_FFFF {
      ValueParts(e, n + 1);
      OneMoreUnit(if e == 0 then n else 0x80_0000 + n, Pow2(if e == 0 then -149 else e - 150));
    } else {
      ValueParts(e + 1, 0);
      Carry(e);
    }
  }

  lemma OneMoreUnit(n: nat, unit: real)
    ensures (n + 1) as real * unit == n as real * unit + unit
  {
    assert (n + 1) as real == n as real + 1.0;
  }

  /** Past the largest fraction the exponent grows by one. */
  lemma Carry(e: nat)
    ensures var unit := Pow2(if e == 0 then -149 else e - 150);
      0x80_0000 as real * Pow2(e + 1 - 150)
      == (if e == 0 then 0x7F_FFFF else 0xFF_FFFF) as real * unit + unit
  {
    if e > 0 { Pow2Step(e - 150); }
    hide Pow2;
    var unit := Pow2(if e == 0 then -149 else e - 150);
    if e == 0 {
      OneMoreUnit(0x7F_FFFF, unit);
    } else {
      OneMoreUnit(0xFF_FFFF, unit);
      assert 0x80_0000 as real * (2.0 * unit) == 0x100_0000 as real * unit;
    }
  }

  /** The order of finite values is the order of the bits for positive floats; a sign bit negates. */
  lemma {:induction false} ValueOrder(f: Float32, g: Float32)
    requires f < g < 0x7F80_0000
    ensures 0.0 <= Value(f) < Value(g)
    decreases g
  {
    hide Pow2, Value;
    var e := (g - 1) / 0x80_0000;
    NextValue(g - 1);
    Pow2Positive(if e == 0 then -149 else e - 150);
    if f < g - 1 { ValueOrder(f, g - 1); } else { ValueNotNegative(f); }
  }

  lemma ValueNotNegative(f: Float32)
    requires f < 0x8000_0000
    ensures Value(f) >= 0.0 && Value(f + 0x8000_0000) == -Value(f)
  {
    var e, n := f / 0x80_0000, f % 0x80_0000;
    Pow2Positive(-149);
    Pow2Positive(e - 150);
    var s := f + 0x8000_0000;
    assert s / 0x80_0000 == e + 0x100 && s % 0x80_0000 == n && e < 0x100;
    hide Pow2;
    NotLess(n, Pow2(-149));
    NotLess(0x80_0000 + n, Pow2(e - 150));
  }

  /** Zero, and one: bit pattern 0x3F800000. */
  lemma ValueOfOne()
    ensures Value(0) == 0.0 && Value(0x3F80_0000) == 1.0
  {
    hide Pow2, Value;
    ValueParts(0, 0);
    ValueParts(127, 0);
    Shifted(0, 23);
    TwoTo23();
    assert Pow2(0) == 1.0 by { NoShift(); }
  }

  lemma NoShift()
    ensures Pow2(0) == 1.0
  {
  }

  lemma TwoTo23()
    ensures Pow2(23) == 8388608.0
  {
    assert Pow2(5) == 32.0;
    hide Pow2;
    Shifted(10, 5); Shifted(15, 5); Shifted(20, 5);
    Pow2Step(20); Pow2Step(21); Pow2Step(22);
  }

  lemma {:induction false} Shifted(e: int, n: nat)
    ensures Pow2(e - n) * Pow2(n) == Pow2(e)
    decreases n
  {
    if n > 0 {
      Shifted(e, n - 1);
      Pow2Step(e - n);
      assert Pow2(e - n) * (2.0 * Pow2(n - 1)) == (2.0 * Pow2(e - n)) * Pow2(n - 1);
    }
  }

  function Values(v: Vector): (p: seq<real>)
    ensures |p| == |v| && forall i | 0 <= i < |v| :: p[i] == Value(v[i])
  {
    seq(|v|, i requires 0 <= i < |v| => Value(v[i]))
  }

  /** A non-NaN float32 result by its rank in the numeric order: the magnitude bits, signed. */
  type Dist = d: int | -0x7F80_0000 <= d <= 0x7F80_0000

  const INFINITY: Dist := 0x7F80_0000

  datatype Scored = Distance(value: Dist) | Undefined

  /** A distance calculator bound to one metric; `Undefined` is an error such as a zero norm. */
  type Metric = (Vector, Vector) -> Scored

  /** Undefined distances rank as +infinity. */
  function Score(metric: Metric, q: Vector, v: Vector): Dist {
    match metric(q, v)
    case Distance(d) => d
    case Undefined => INFINITY
  }

  /** An identifier with its distance from a query; also a query's Neighbor. */
  datatype Candidate = Candidate(id: RecordId, distance: Dist)

  /** Ascending distance, ties broken by ascending identifier. */
  predicate CandidateLess(a: Candidate, b: Candidate) {
    if a.distance != b.distance then a.distance < b.distance else IdLess(a.id, b.id)
  }

  lemma CandidateOrder()
    ensures StrictTotal(CandidateLess)
  {
    IdOrder();
  }

  // ---------------------------------------------------------------- exact answers

  /** Every stored record with its exact distance from `q`. */
  ghost function AllScored(contents: map<RecordId, Vector>, metric: Metric, q: Vector): set<Candidate> {
    set id | id in contents :: Candidate(id, Score(metric, q, contents[id]))
  }

  function Prefix<T>(s: seq<T>, k: nat): seq<T> { if |s| <= k then s else s[..k] }

  /** The exact answer to a k-nearest query: the first k records under (distance, id). */
  ghost function TopK(contents: map<RecordId, Vector>, metric: Metric, q: Vector, k: nat): seq<Candidate> {
    CandidateOrder();
    Prefix(Enumerate(AllScored(contents, metric, q), CandidateLess), k)
  }

  /** The candidate is a stored record under the distance its vector has, which is +infinity when it has none. */
  ghost predicate Measures(c: Candidate, contents: map<RecordId, Vector>, metric: Metric, q: Vector) {
    && c.id in contents
    && match metric(q, contents[c.id])
       case Distance(d) => c.distance == d
       case Undefined => c.distance == 0x7F80_0000
  }

  /** Nearest first, and equally near ones by ascending identifier. */
  ghost predicate Ranked(out: seq<Candidate>) {
    forall i, j | 0 <= i < j < |out| ::
      out[i].distance < out[j].distance || (out[i].distance == out[j].distance && IdLess(out[i].id, out[j].id))
  }

  /** Every record that was left out is farther than every one taken, or as far under a larger identifier. */
  ghost predicate NoneNearer(out: seq<Candidate>, contents: map<RecordId, Vector>, metric: Metric, q: Vector) {
    forall c, left: Candidate | c in out && Measures(left, contents, metric, q) && left !in out ::
      c.distance < left.distance || (c.distance == left.distance && IdLess(c.id, left.id))
  }

  /** The k nearest records, or all of them when there are fewer. */
  ghost predicate NearestK(out: seq<Candidate>, contents: map<RecordId, Vector>, metric: Metric, q: Vector, k: nat) {
    && Ranked(out) && NoneNearer(out, contents, metric, q)
    && (forall c | c in out :: Measures(c, contents, metric, q))
    && |out| <= k && |out| <= |contents| && (|out| == k || |out| == |contents|)
  }

  lemma MeasuresScored(c: Candidate, contents: map<RecordId, Vector>, metric: Metric, q: Vector)
    ensures Measures(c, contents, metric, q) <==> c in AllScored(contents, metric, q)
    ensures Measures(c, contents, metric, q) <==>
      c.id in contents && c.distance == Score(metric, q, contents[c.id])
  {
  }

  lemma {:induction false} ScoredCount(contents: map<RecordId, Vector>, metric: Metric, q: Vector)
    ensures |AllScored(contents, metric, q)| == |contents|
    decreases |contents|
  {
    hide Score;
    if contents == map[] {
      assert AllScored(contents, metric, q) == {};
    } else {
      var id :| id in contents;
      var rest := contents - {id};
      ScoredCount(rest, metric, q);
      var c := Candidate(id, Score(metric, q, contents[id]));
      ScoredOneMore(contents, rest, metric, q, id);
      assert c !in AllScored(rest, metric, q);
    }
  }

  lemma ScoredOneMore(contents: map<RecordId, Vector>, rest: map<RecordId, Vector>, metric: Metric, q: Vector,
                      id: RecordId)
    requires id in contents && rest == contents - {id}
    ensures AllScored(contents, metric, q)
      == AllScored(rest, metric, q) + {Candidate(id, Score(metric, q, contents[id]))}
  {
    hide Score;
    forall x | x in contents && x != id
      ensures Candidate(x, Score(metric, q, contents[x])) in AllScored(rest, metric, q)
    {
      assert x in rest;
    }
  }

  /** The exact answer is the k nearest records. */
  lemma TopKNearest(contents: map<RecordId, Vector>, metric: Metric, q: Vector, k: nat)
    ensures NearestK(TopK(contents, metric, q, k), contents, metric, q, k)
  {
    CandidateOrder();
    ScoredCount(contents, metric, q);
    hide Score, IdLess, AllScored, Measures;
    var all, out := Enumerate(AllScored(contents, metric, q), CandidateLess), TopK(contents, metric, q, k);
    assert out <= all && |all| == |contents|;
    forall c | c in out ensures Measures(c, contents, metric, q) {
      assert c in all;
      MeasuresScored(c, contents, metric, q);
    }
    forall i, j | 0 <= i < j < |out|
      ensures out[i].distance < out[j].distance || (out[i].distance == out[j].distance && IdLess(out[i].id, out[j].id))
    {
      assert CandidateLess(all[i], all[j]);
    }
    TopKNoneNearer(all, out, contents, metric, q);
  }

  /** What lies behind a prefix of all the scored records ranks behind it. */
  lemma TopKNoneNearer(all: seq<Candidate>, out: seq<Candidate>, contents: map<RecordId, Vector>, metric: Metric,
                       q: Vector)
    requires Enumerates(all, AllScored(contents, metric, q), CandidateLess) && out <= all
    ensures NoneNearer(out, contents, metric, q)
  {
    hide IdLess, AllScored, Measures;
    forall c, left: Candidate | c in out && Measures(left, contents, metric, q) && left !in out
      ensures c.distance < left.distance || (c.distance == left.distance && IdLess(c.id, left.id))
    {
      MeasuresScored(left, contents, metric, q);
      assert left in all;
      var i :| 0 <= i < |out| && out[i] == c;
      var j :| 0 <= j < |all| && all[j] == left;
      assert forall x | 0 <= x < |out| :: out[x] == all[x] && out[x] in out;
      assert CandidateLess(all[i], all[j]);
    }
  }

  /** Only one list is the k nearest records. */
  lemma NearestUnique(a: seq<Candidate>, b: seq<Candidate>, contents: map<RecordId, Vector>, metric: Metric, q: Vector,
                      k: nat)
    requires NearestK(a, contents, metric, q, k) && NearestK(b, contents, metric, q, k)
    ensures a == b
  {
    CandidateOrder();
    hide IdLess, Measures;
    assert Ascending(a, CandidateLess) && Ascending(b, CandidateLess);
    AscendingDistinct(a, CandidateLess);
    AscendingDistinct(b, CandidateLess);
    forall c ensures c in a <==> c in b {
      NearestShared(a, b, contents, metric, q, k, c);
      NearestShared(b, a, contents, metric, q, k, c);
    }
    EnumerationUnique(a, b, CandidateLess);
  }

  /** A member of one list is in the other, because what the other holds instead would rank before it and behind it. */
  lemma NearestShared(a: seq<Candidate>, b: seq<Candidate>, contents: map<RecordId, Vector>, metric: Metric, q: Vector,
                      k: nat, c: Candidate)
    requires NearestK(a, contents, metric, q, k) && NearestK(b, contents, metric, q, k)
    requires Distinct(a) && Distinct(b) && StrictTotal(CandidateLess)
    ensures c in a ==> c in b
  {
    hide IdLess, Measures, Ranked;
    if forall d | d in b :: d in a {
      ElementsCount(a);
      ElementsCount(b);
      SameSize(Elements(b), Elements(a));
      assert c in a <==> c in Elements(a);
      assert c in b <==> c in Elements(b);
    } else {
      var d :| d in b && d !in a;
      if c in a { assert CandidateLess(c, d) && !CandidateLess(d, c); }
    }
  }

  lemma {:induction false} ElementsCount<T>(s: seq<T>)
    requires Distinct(s)
    ensures |Elements(s)| == |s|
  {
    if s != [] {
      var n := |s| - 1;
      ElementsCount(s[..n]);
      ElementsStep(s, n);
      ElementsEnds(s);
    }
  }

  lemma SameSize<T>(s: set<T>, t: set<T>)
    requires s <= t && |s| == |t|
    ensures s == t
  {
    assert |t - s| == |t| - |s|;
    assert t == s + (t - s);
  }

  /** Sorting a complete duplicate-free list of scored records and cutting it at k is the exact answer. */
  lemma SortedIsTopK(list: seq<Candidate>, contents: map<RecordId, Vector>, metric: Metric, q: Vector, k: nat)
    requires Distinct(list) && forall c :: c in list <==> c in AllScored(contents, metric, q)
    ensures StrictTotal(CandidateLess) && Prefix(Sort(list, CandidateLess), k) == TopK(contents, metric, q, k)
  {
    CandidateOrder();
    hide IdLess;
    SortDistinct(list, CandidateLess);
    SortMembers(list, CandidateLess);
    EnumerationUnique(Sort(list, CandidateLess), Enumerate(AllScored(contents, metric, q), CandidateLess),
                      CandidateLess);
  }

  /** Ranking scored records with distinct ids: sorted, distinct, at most k, nothing invented. */
  lemma RankFacts(list: seq<Candidate>, k: nat)
    requires forall i, j | 0 <= i < j < |list| :: list[i].id != list[j].id
    ensures StrictTotal(CandidateLess)
    ensures var r := Prefix(Sort(list, CandidateLess), k);
      && |r| <= k && |r| <= |list| && (|list| <= k ==> |r| == |list|) && (k <= |list| ==> |r| == k)
      && Ascending(r, CandidateLess)
      && (forall i, j | 0 <= i < j < |r| :: r[i].id != r[j].id)
      && (forall c | c in r :: c in list)
  {
    CandidateOrder();
    hide IdLess;
    var r := Sort(list, CandidateLess);
    assert Distinct(list);
    SortDistinct(list, CandidateLess);
    SortMembers(list, CandidateLess);
    forall i, j | 0 <= i < j < |r| ensures r[i].id != r[j].id {
      assert r[i] in list && r[j] in list && r[i] != r[j];
    }
  }
}
