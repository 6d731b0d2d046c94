/** The exact ranking of a query: re-ranking any candidate list, and the brute-force scan. */
module Ranking {
  import opened Ordering
  import opened Identifiers
  import opened Vectors

  function Exact(vectors: map<RecordId, Vector>, metric: Metric, q: Vector, id: RecordId): Candidate
    requires id in vectors
  {
    Candidate(id, Score(metric, q, vectors[id]))
  }

  /** Distinct stored records, each with its exact distance. */
  ghost predicate ExactList(list: seq<Candidate>, vectors: map<RecordId, Vector>, metric: Metric, q: Vector) {
    && (forall c | c in list :: c.id in vectors && c.distance == Score(metric, q, vectors[c.id]))
    && (forall i, j | 0 <= i < j < |list| :: list[i].id != list[j].id)
  }

  function IdsIn(list: seq<Candidate>): set<RecordId> { set i | 0 <= i < |list| :: list[i].id }

  function Least(a: nat, b: nat): nat { if a < b then a else b }

  lemma {:induction false} IdsCount(list: seq<Candidate>)
    requires forall i, j | 0 <= i < j < |list| :: list[i].id != list[j].id
    ensures |IdsIn(list)| == |list|
    decreases |list|
  {
    if list != [] {
      var n := |list| - 1;
      IdsCount(list[..n]);
      IdsSnoc(list[..n], list[n]);
      assert list == list[..n] + [list[n]];
    }
  }

  lemma IdsSnoc(list: seq<Candidate>, c: Candidate)
    ensures IdsIn(list + [c]) == IdsIn(list) + {c.id}
    ensures (forall i | 0 <= i < |list| :: list[i].id != c.id) <==> c.id !in IdsIn(list)
  {
    var more := list + [c];
    assert more[|list|] == c;
    forall i | 0 <= i < |list| ensures list[i].id in IdsIn(more) { assert more[i] == list[i]; }
    forall x | x in IdsIn(more) ensures x in IdsIn(list) + {c.id} {
      var i :| 0 <= i < |more| && more[i].id == x;
      if i < |list| { assert list[i] == more[i]; }
    }
  }

  /** An exact list over all the stored ids is complete. */
  lemma CompleteList(list: seq<Candidate>, vectors: map<RecordId, Vector>, metric: Metric, q: Vector)
    requires ExactList(list, vectors, metric, q) && IdsIn(list) == vectors.Keys
    ensures |list| == |vectors| && Distinct(list) && forall c :: c in list <==> c in AllScored(vectors, metric, q)
  {
    IdsCount(list);
    assert |vectors| == |vectors.Keys|;
    forall c | c in AllScored(vectors, metric, q) ensures c in list {
      assert c.id in IdsIn(list);
      var i :| 0 <= i < |list| && list[i].id == c.id;
      assert list[i] in list;
    }
  }

  /** The facts every answer has, whatever list it was cut from: as many distinct records as asked for or stored, under
      their distances, nearest first. */
  ghost predicate Answers(out: seq<Candidate>, vectors: map<RecordId, Vector>, metric: Metric, q: Vector, k: nat) {
    && |out| <= k && |out| <= |vectors| && (|out| == k || |out| == |vectors|)
    && (forall c | c in out :: Measures(c, vectors, metric, q))
    && (forall i, j | 0 <= i < j < |out| :: out[i].id != out[j].id)
    && Ranked(out)
  }

  lemma RankedWhenAscending(out: seq<Candidate>)
    requires Ascending(out, CandidateLess)
    ensures Ranked(out)
  {
    hide IdLess;
    forall i, j | 0 <= i < j < |out|
      ensures out[i].distance < out[j].distance || (out[i].distance == out[j].distance && IdLess(out[i].id, out[j].id))
    {
      assert CandidateLess(out[i], out[j]);
    }
  }

  lemma ExactMeasures(list: seq<Candidate>, vectors: map<RecordId, Vector>, metric: Metric, q: Vector)
    requires ExactList(list, vectors, metric, q)
    ensures forall c | c in list :: Measures(c, vectors, metric, q)
  {
    hide Score, Measures;
    forall c | c in list ensures Measures(c, vectors, metric, q) { MeasuresScored(c, vectors, metric, q); }
  }

  lemma ExactWithin(list: seq<Candidate>, vectors: map<RecordId, Vector>, metric: Metric, q: Vector)
    requires ExactList(list, vectors, metric, q)
    ensures |list| <= |vectors|
  {
    IdsCount(list);
    assert IdsIn(list) <= vectors.Keys;
    SubsetCount(IdsIn(list), vectors.Keys);
    assert |vectors| == |vectors.Keys|;
  }

  lemma {:induction false} SubsetCount<T>(a: set<T>, b: set<T>)
    requires a <= b
    ensures |a| <= |b|
    decreases |a|
  {
    if a != {} {
      var x :| x in a;
      SubsetCount(a - {x}, b - {x});
    }
  }

  /** Sorting and cutting an exact list that is long enough gives an answer. */
  lemma SortedAnswers(list: seq<Candidate>, vectors: map<RecordId, Vector>, metric: Metric, q: Vector, k: nat)
    requires ExactList(list, vectors, metric, q) && |list| >= Least(k, |vectors|)
    ensures StrictTotal(CandidateLess) && Answers(Prefix(Sort(list, CandidateLess), k), vectors, metric, q, k)
  {
    ExactWithin(list, vectors, metric, q);
    RankFacts(list, k);
    hide CandidateLess, Sort, Score, Measures, Ranked;
    var out := Prefix(Sort(list, CandidateLess), k);
    ExactMeasures(out, vectors, metric, q);
    RankedWhenAscending(out);
  }

  /** A complete list gives the exact answer. */
  lemma SortedComplete(list: seq<Candidate>, vectors: map<RecordId, Vector>, metric: Metric, q: Vector, k: nat)
    requires ExactList(list, vectors, metric, q) && IdsIn(list) == vectors.Keys
    ensures StrictTotal(CandidateLess) && Prefix(Sort(list, CandidateLess), k) == TopK(vectors, metric, q, k)
    ensures Answers(TopK(vectors, metric, q, k), vectors, metric, q, k)
  {
    CompleteList(list, vectors, metric, q);
    SortedAnswers(list, vectors, metric, q, k);
    SortedIsTopK(list, vectors, metric, q, k);
  }

  /** The exact answer consists of exact entries. */
  lemma TopKExact(vectors: map<RecordId, Vector>, metric: Metric, q: Vector, k: nat)
    ensures StrictTotal(CandidateLess)
    ensures var top := TopK(vectors, metric, q, k);
      Ascending(top, CandidateLess) && |top| <= k && forall c | c in top :: c in AllScored(vectors, metric, q)
  {
    CandidateOrder();
    hide CandidateLess, Score;
    var all := Enumerate(AllScored(vectors, metric, q), CandidateLess);
    var top := Prefix(all, k);
    forall c | c in top ensures c in AllScored(vectors, metric, q) { assert c in all; }
  }

  /** Re-ranking a list whose stored ids are those of the exact answer gives the exact answer. */
  lemma RerankedTopK(list: seq<Candidate>, vectors: map<RecordId, Vector>, metric: Metric, q: Vector, k: nat)
    requires ExactList(list, vectors, metric, q)
    requires IdsIn(list) == IdsIn(TopK(vectors, metric, q, k))
    ensures StrictTotal(CandidateLess) && Prefix(Sort(list, CandidateLess), k) == TopK(vectors, metric, q, k)
  {
    TopKExact(vectors, metric, q, k);
    var top := TopK(vectors, metric, q, k);
    hide CandidateLess, TopK, Score;
    assert Distinct(list);
    SortDistinct(list, CandidateLess);
    SortMembers(list, CandidateLess);
    var sorted := Sort(list, CandidateLess);
    forall c ensures c in sorted <==> c in top {
      SameById(list, top, vectors, metric, q, c);
      SameById(top, list, vectors, metric, q, c);
    }
    EnumerationUnique(sorted, top, CandidateLess);
  }

  lemma SameById(a: seq<Candidate>, b: seq<Candidate>, vectors: map<RecordId, Vector>, metric: Metric, q: Vector,
                 c: Candidate)
    requires forall x | x in a || x in b :: x in AllScored(vectors, metric, q)
    requires IdsIn(a) == IdsIn(b)
    ensures c in a ==> c in b
  {
    if c in a {
      var i :| 0 <= i < |a| && a[i] == c;
      assert a[i].id in IdsIn(b);
      var j :| 0 <= j < |b| && b[j].id == c.id;
      assert b[j] in b;
    }
  }

  // ---------------------------------------------------------------- the code

  /** The exact distance to every stored record, in id order. */
  method BruteForce(vectors: map<RecordId, Vector>, metric: Metric, q: Vector) returns (results: seq<Candidate>)
    ensures ExactList(results, vectors, metric, q) && IdsIn(results) == vectors.Keys
  {
    hide Score, SortedIds, ExactList, IdsIn, Elements, Distinct;
    var ids := SortedIds(vectors.Keys);
    SortedIdsListed(vectors.Keys);
    results := [];
    NoneScored(vectors, metric, q);
    ElementsEnds(ids);
    for i := 0 to |ids|
      invariant ExactList(results, vectors, metric, q) && IdsIn(results) == Elements(ids[..i])
    {
      ElementsStep(ids, i);
      results := ScoreOne(results, vectors, metric, q, ids[i]);
    }
  }

  lemma NoneScored(vectors: map<RecordId, Vector>, metric: Metric, q: Vector)
    ensures ExactList([], vectors, metric, q) && IdsIn([]) == {}
  {
  }

  /** Appends one more stored record with its exact distance. */
  method ScoreOne(results: seq<Candidate>, vectors: map<RecordId, Vector>, metric: Metric, q: Vector, id: RecordId)
      returns (more: seq<Candidate>)
    requires ExactList(results, vectors, metric, q) && id in vectors && id !in IdsIn(results)
    ensures ExactList(more, vectors, metric, q) && IdsIn(more) == IdsIn(results) + {id}
  {
    hide Score;
    IdsSnoc(results, Exact(vectors, metric, q, id));
    more := results + [Exact(vectors, metric, q, id)];
  }

  /** The candidates that are still stored, once each, with their exact distances. */
  method Rerank(candidates: seq<Candidate>, vectors: map<RecordId, Vector>, metric: Metric, q: Vector)
      returns (results: seq<Candidate>)
    ensures ExactList(results, vectors, metric, q)
    ensures IdsIn(results) == IdsIn(candidates) * vectors.Keys
  {
    hide Score;
    results := [];
    var seen: set<RecordId> := {};
    for i := 0 to |candidates|
      invariant ExactList(results, vectors, metric, q)
      invariant IdsIn(results) == seen == IdsIn(candidates[..i]) * vectors.Keys
    {
      var id := candidates[i].id;
      assert candidates[..i + 1] == candidates[..i] + [candidates[i]];
      IdsSnoc(candidates[..i], candidates[i]);
      if id !in vectors || id in seen {
        continue;
      }
      results := ScoreOne(results, vectors, metric, q, id);
      seen := seen + {id};
    }
    assert candidates[..|candidates|] == candidates;
  }

  /** The stored records that some candidate names. */
  ghost function Known(candidates: seq<Candidate>, vectors: map<RecordId, Vector>): map<RecordId, Vector> {
    map id | id in vectors && (exists c :: c in candidates && c.id == id) :: vectors[id]
  }

  lemma KnownAre(candidates: seq<Candidate>, vectors: map<RecordId, Vector>)
    ensures Known(candidates, vectors)
         == map id | id in vectors && (exists c :: c in candidates && c.id == id) :: vectors[id]
  {
  }

  /** The k nearest of the stored records among the candidates, or of all records when too few candidates are stored. */
  ghost predicate RerankedFrom(out: seq<Candidate>, candidates: seq<Candidate>, vectors: map<RecordId, Vector>,
                               metric: Metric, q: Vector, k: nat) {
    var known := Known(candidates, vectors);
    NearestK(out, if |known| < k && |known| < |vectors| then vectors else known, metric, q, k)
  }

  /** Exact entries for the stored candidates are a complete list over them. */
  lemma ExactKnown(list: seq<Candidate>, candidates: seq<Candidate>, vectors: map<RecordId, Vector>, metric: Metric,
                   q: Vector)
    requires ExactList(list, vectors, metric, q) && IdsIn(list) == IdsIn(candidates) * vectors.Keys
    ensures var known := Known(candidates, vectors);
      ExactList(list, known, metric, q) && IdsIn(list) == known.Keys && |list| == |known|
  {
    hide Score;
    var known := Known(candidates, vectors);
    forall id | id in vectors ensures id in known <==> id in IdsIn(candidates) {
      if id in IdsIn(candidates) {
        var i :| 0 <= i < |candidates| && candidates[i].id == id;
        assert candidates[i] in candidates;
      }
    }
    assert IdsIn(list) == known.Keys;
    forall c | c in list ensures c.id in known {
      var i :| 0 <= i < |list| && list[i] == c;
      assert list[i].id in IdsIn(list);
    }
    CompleteList(list, known, metric, q);
  }

  /** Answers from any candidate list, falling back to brute force when too few of them are stored. */
  method AnswerFrom(candidates: seq<Candidate>, vectors: map<RecordId, Vector>, metric: Metric, q: Vector, k: nat)
      returns (out: seq<Candidate>)
    ensures Answers(out, vectors, metric, q, k)
    ensures candidates == TopK(vectors, metric, q, k) ==> out == TopK(vectors, metric, q, k)
    ensures RerankedFrom(out, candidates, vectors, metric, q, k)
    ensures var known := map id | id in vectors && (exists c :: c in candidates && c.id == id) :: vectors[id];
      && (|known| >= k || |known| == |vectors| ==> NearestK(out, known, metric, q, k))
      && (|known| < k && |known| < |vectors| ==> NearestK(out, vectors, metric, q, k))
  {
    KnownAre(candidates, vectors);
    hide CandidateLess, Sort, TopK, ExactList, AllScored, NearestK, Known, IdsIn, Answers;
    var results := Rerank(candidates, vectors, metric, q);
    ghost var known := Known(candidates, vectors);
    ExactKnown(results, candidates, vectors, metric, q);
    if |results| < Least(k, |vectors|) {
      out := AnswerAll(vectors, metric, q, k);
      return;
    }
    SortedAnswers(results, vectors, metric, q, k);
    if candidates == TopK(vectors, metric, q, k) {
      TopKStored(vectors, metric, q, k);
      assert IdsIn(results) == IdsIn(candidates);
      RerankedTopK(results, vectors, metric, q, k);
    }
    SortedComplete(results, known, metric, q, k);
    TopKNearest(known, metric, q, k);
    out := Prefix(Sort(results, CandidateLess), k);
  }

  lemma TopKStored(vectors: map<RecordId, Vector>, metric: Metric, q: Vector, k: nat)
    ensures IdsIn(TopK(vectors, metric, q, k)) <= vectors.Keys
  {
    TopKExact(vectors, metric, q, k);
    hide TopK;
    var top := TopK(vectors, metric, q, k);
    forall x | x in IdsIn(top) ensures x in vectors {
      var i :| 0 <= i < |top| && top[i].id == x;
      assert top[i] in top;
    }
  }

  method AnswerAll(vectors: map<RecordId, Vector>, metric: Metric, q: Vector, k: nat) returns (out: seq<Candidate>)
    ensures Answers(out, vectors, metric, q, k) && out == TopK(vectors, metric, q, k)
    ensures NearestK(out, vectors, metric, q, k)
  {
    TopKNearest(vectors, metric, q, k);
    hide CandidateLess, Sort, TopK, ExactList, AllScored;
    var results := BruteForce(vectors, metric, q);
    SortedComplete(results, vectors, metric, q, k);
    out := Prefix(Sort(results, CandidateLess), k);
  }
}
