/** The neighbour-selection heuristic: near the base, and farther from each other. */
module HnswSelect {
  import opened Ordering
  import opened Vectors
  import opened HnswGraph

  /** Distance between two stored nodes. */
  function NodeDist(metric: Metric, vectors: seq<Vector>, a: nat, b: nat): Dist {
    if a < |vectors| && b < |vectors| then Score(metric, vectors[a], vectors[b]) else INFINITY
  }

  /** `e` is closer to the base than to every selected neighbour. */
  predicate Diverse(metric: Metric, vectors: seq<Vector>, e: Item, selected: seq<nat>) {
    forall r | r in selected :: e.dist < NodeDist(metric, vectors, e.node, r)
  }

  /** The greedy pass over candidates in (distance, id) order. */
  function Pass(metric: Metric, vectors: seq<Vector>, sorted: seq<Item>, m: nat, selected: seq<nat>): seq<nat>
    decreases |sorted|
  {
    if sorted == [] || |selected| >= m then selected
    else if Diverse(metric, vectors, sorted[0], selected)
    then Pass(metric, vectors, sorted[1..], m, selected + [sorted[0].node])
    else Pass(metric, vectors, sorted[1..], m, selected)
  }

  function Select(metric: Metric, vectors: seq<Vector>, candidates: seq<Item>, m: nat): seq<nat> {
    ItemOrder();
    Pass(metric, vectors, Sort(candidates, ItemLess), m, [])
  }

  // ---------------------------------------------------------------- what the selection means

  /** The nodes at the given positions of the sorted candidates. */
  function At(sorted: seq<Item>, pos: seq<nat>): seq<nat>
    requires forall k | 0 <= k < |pos| :: pos[k] < |sorted|
  {
    seq(|pos|, k requires 0 <= k < |pos| => sorted[pos[k]].node)
  }

  /** `pos` picks increasing positions, each candidate closer to the base than to every earlier pick. */
  ghost predicate Picks(metric: Metric, vectors: seq<Vector>, sorted: seq<Item>, pos: seq<nat>) {
    && (forall k | 0 <= k < |pos| :: pos[k] < |sorted|)
    && (forall j, k | 0 <= j < k < |pos| :: pos[j] < pos[k])
    && (forall j, k | 0 <= j < k < |pos| ::
          sorted[pos[k]].dist < NodeDist(metric, vectors, sorted[pos[k]].node, sorted[pos[j]].node))
  }

  /** Candidate `i` was passed over for a pick before it that is at least as close to it as the base. */
  ghost predicate Redundant(metric: Metric, vectors: seq<Vector>, sorted: seq<Item>, pos: seq<nat>, i: nat)
    requires i < |sorted| && forall k | 0 <= k < |pos| :: pos[k] < |sorted|
  {
    exists j | 0 <= j < |pos| ::
      pos[j] < i && NodeDist(metric, vectors, sorted[i].node, sorted[pos[j]].node) <= sorted[i].dist
  }

  /** How far the pass looked: to the end, or to the pick that filled the list. */
  function Looked(sorted: seq<Item>, pos: seq<nat>, m: nat): nat {
    if |pos| < m || |pos| == 0 then (if m == 0 then 0 else |sorted|) else pos[|pos| - 1]
  }

  /** The diverse selection: at most m picks, and everything looked at but not picked is redundant. */
  ghost predicate Selection(metric: Metric, vectors: seq<Vector>, sorted: seq<Item>, m: nat, pos: seq<nat>) {
    && |pos| <= m && Picks(metric, vectors, sorted, pos)
    && forall i: nat | i < |sorted| && i < Looked(sorted, pos, m) && i !in pos ::
      Redundant(metric, vectors, sorted, pos, i)
  }

  /** The selection exists in only one way, so the predicate defines it. */
  lemma SelectionUnique(metric: Metric, vectors: seq<Vector>, sorted: seq<Item>, m: nat, p: seq<nat>, q: seq<nat>)
    requires Selection(metric, vectors, sorted, m, p) && Selection(metric, vectors, sorted, m, q)
    ensures p == q
  {
    SelectionPrefix(metric, vectors, sorted, m, p, q, if |p| < |q| then |p| else |q|);
    if |p| < |q| { NoExtraPick(metric, vectors, sorted, m, p, q, |p|); }
    if |q| < |p| { NoExtraPick(metric, vectors, sorted, m, q, p, |q|); }
  }

  lemma {:induction false} SelectionPrefix(metric: Metric, vectors: seq<Vector>, sorted: seq<Item>, m: nat,
                                           p: seq<nat>, q: seq<nat>, n: nat)
    requires Selection(metric, vectors, sorted, m, p) && Selection(metric, vectors, sorted, m, q)
    requires n <= |p| && n <= |q|
    ensures p[..n] == q[..n]
    decreases n
  {
    if n > 0 {
      SelectionPrefix(metric, vectors, sorted, m, p, q, n - 1);
      if p[n - 1] < q[n - 1] { NoExtraPick(metric, vectors, sorted, m, q, p, n - 1); }
      if q[n - 1] < p[n - 1] { NoExtraPick(metric, vectors, sorted, m, p, q, n - 1); }
      assert p[..n] == p[..n - 1] + [p[n - 1]] && q[..n] == q[..n - 1] + [q[n - 1]];
    }
  }

  /** A position skipped between picks k-1 and k is redundant because of one of the first k picks. */
  lemma SkippedIsRedundant(metric: Metric, vectors: seq<Vector>, sorted: seq<Item>, m: nat, p: seq<nat>, k: nat, i: nat)
    requires Selection(metric, vectors, sorted, m, p) && k <= |p| && i < |sorted| && i < Looked(sorted, p, m)
    requires (forall j | 0 <= j < k :: p[j] < i) && (k < |p| ==> i < p[k])
    ensures exists j | 0 <= j < k :: NodeDist(metric, vectors, sorted[i].node, sorted[p[j]].node) <= sorted[i].dist
  {
    forall j | 0 <= j < |p| ensures p[j] != i && (p[j] < i ==> j < k) {
      if k < j { assert p[k] < p[j]; }
    }
    assert Redundant(metric, vectors, sorted, p, i);
  }

  /** After a common prefix, `q` cannot pick a position that `p` skipped. */
  lemma NoExtraPick(metric: Metric, vectors: seq<Vector>, sorted: seq<Item>, m: nat, p: seq<nat>, q: seq<nat>, k: nat)
    requires Selection(metric, vectors, sorted, m, p) && Selection(metric, vectors, sorted, m, q)
    requires k < |q| && k <= |p| && p[..k] == q[..k]
    ensures k < |p| && p[k] <= q[k]
  {
    assert forall j | 0 <= j < k :: p[j] == p[..k][j] == q[..k][j] == q[j];
    assert forall j | 0 <= j < k :: q[j] < q[k];
    if k == |p| || q[k] < p[k] {
      SkippedIsRedundant(metric, vectors, sorted, m, p, k, q[k]);
    }
  }

  /** Pass computes the selection. */
  lemma {:induction false} PassSelects(metric: Metric, vectors: seq<Vector>, sorted: seq<Item>, n: nat, m: nat,
                             pos: seq<nat>)
      returns (picked: seq<nat>)
    requires n <= |sorted| && |pos| <= m
    requires Picks(metric, vectors, sorted, pos) && forall k | 0 <= k < |pos| :: pos[k] < n
    requires forall i: nat | i < n && i !in pos :: Redundant(metric, vectors, sorted, pos, i)
    ensures Selection(metric, vectors, sorted, m, picked)
    ensures Pass(metric, vectors, sorted[n..], m, At(sorted, pos)) == At(sorted, picked)
    ensures pos <= picked
    decreases |sorted| - n
  {
    if n == |sorted| || |pos| >= m {
      picked := pos;
    } else {
      hide Picks, Redundant, Diverse, Selection, At;
      assert sorted[n..][0] == sorted[n] && sorted[n..][1..] == sorted[n + 1..];
      AtSnoc(sorted, pos, n);
      if Diverse(metric, vectors, sorted[n], At(sorted, pos)) {
        PickExtends(metric, vectors, sorted, pos, n);
        picked := PassSelects(metric, vectors, sorted, n + 1, m, pos + [n]);
      } else {
        SkipIsRedundant(metric, vectors, sorted, pos, n);
        picked := PassSelects(metric, vectors, sorted, n + 1, m, pos);
      }
    }
  }

  lemma AtSnoc(sorted: seq<Item>, pos: seq<nat>, n: nat)
    requires n < |sorted| && forall k | 0 <= k < |pos| :: pos[k] < |sorted|
    ensures At(sorted, pos + [n]) == At(sorted, pos) + [sorted[n].node]
  {
  }

  /** A candidate that is not diverse is redundant because of an earlier pick. */
  lemma SkipIsRedundant(metric: Metric, vectors: seq<Vector>, sorted: seq<Item>, pos: seq<nat>, n: nat)
    requires n < |sorted| && forall k | 0 <= k < |pos| :: pos[k] < n
    requires !Diverse(metric, vectors, sorted[n], At(sorted, pos))
    ensures Redundant(metric, vectors, sorted, pos, n)
  {
    var sel := At(sorted, pos);
    var r :| r in sel && NodeDist(metric, vectors, sorted[n].node, r) <= sorted[n].dist;
    var j :| 0 <= j < |sel| && sel[j] == r;
    assert pos[j] < n;
  }

  lemma PickExtends(metric: Metric, vectors: seq<Vector>, sorted: seq<Item>, pos: seq<nat>, n: nat)
    requires n < |sorted| && Picks(metric, vectors, sorted, pos) && forall k | 0 <= k < |pos| :: pos[k] < n
    requires Diverse(metric, vectors, sorted[n], At(sorted, pos))
    ensures Picks(metric, vectors, sorted, pos + [n])
    ensures forall i: nat | i < n && Redundant(metric, vectors, sorted, pos, i) ::
      Redundant(metric, vectors, sorted, pos + [n], i)
  {
    var sel, pos' := At(sorted, pos), pos + [n];
    forall j | 0 <= j < |pos|
      ensures sorted[n].dist < NodeDist(metric, vectors, sorted[n].node, sorted[pos'[j]].node)
    {
      assert sel[j] in sel;
    }
    forall i: nat | i < n && Redundant(metric, vectors, sorted, pos, i)
      ensures Redundant(metric, vectors, sorted, pos', i)
    {
      var j :| 0 <= j < |pos| && pos[j] < i
        && NodeDist(metric, vectors, sorted[i].node, sorted[pos[j]].node) <= sorted[i].dist;
      assert pos'[j] == pos[j];
    }
  }

  /** Select is the diverse selection of the sorted candidates. */
  lemma SelectIsSelection(metric: Metric, vectors: seq<Vector>, candidates: seq<Item>, m: nat) returns (pos: seq<nat>)
    ensures StrictTotal(ItemLess) && Selection(metric, vectors, Sort(candidates, ItemLess), m, pos)
    ensures Select(metric, vectors, candidates, m) == At(Sort(candidates, ItemLess), pos)
    ensures candidates != [] && m > 0 ==> pos != [] && pos[0] == 0
  {
    hide Selection, Pass, Sort, Sorted;
    ItemOrder();
    var sorted := Sort(candidates, ItemLess);
    pos := PassSelects(metric, vectors, sorted, 0, m, []);
    assert sorted[0..] == sorted && At(sorted, []) == [];
    if candidates != [] && m > 0 {
      FirstPicked(metric, vectors, sorted, m, pos);
    }
  }

  /** At most m distinct nodes, all of them candidates. */
  lemma SelectWithin(metric: Metric, vectors: seq<Vector>, candidates: seq<Item>, m: nat)
    requires forall i, j | 0 <= i < j < |candidates| :: candidates[i].node != candidates[j].node
    ensures Distinct(Select(metric, vectors, candidates, m)) && |Select(metric, vectors, candidates, m)| <= m
    ensures forall s | s in Select(metric, vectors, candidates, m) :: exists c :: c in candidates && c.node == s
  {
    var pos := SelectIsSelection(metric, vectors, candidates, m);
    var sorted := Sort(candidates, ItemLess);
    SortMembers(candidates, ItemLess);
    NodesDistinct(candidates, sorted);
    AtFacts(sorted, pos);
  }

  lemma AtFacts(sorted: seq<Item>, pos: seq<nat>)
    requires forall k | 0 <= k < |pos| :: pos[k] < |sorted|
    requires forall j, k | 0 <= j < k < |pos| :: pos[j] < pos[k]
    requires forall i, j | 0 <= i < j < |sorted| :: sorted[i].node != sorted[j].node
    ensures Distinct(At(sorted, pos)) && forall s | s in At(sorted, pos) :: exists c :: c in sorted && c.node == s
  {
    forall s | s in At(sorted, pos) ensures exists c :: c in sorted && c.node == s {
      var k :| 0 <= k < |pos| && At(sorted, pos)[k] == s;
      assert sorted[pos[k]] in sorted;
    }
  }

  lemma FirstPicked(metric: Metric, vectors: seq<Vector>, sorted: seq<Item>, m: nat, pos: seq<nat>)
    requires Selection(metric, vectors, sorted, m, pos) && sorted != [] && m > 0
    ensures pos != [] && pos[0] == 0
  {
    if pos == [] || 0 < pos[0] {
      SkippedIsRedundant(metric, vectors, sorted, m, pos, 0, 0);
    }
  }

  /** Sorting keeps node ids distinct. */
  lemma NodesDistinct(candidates: seq<Item>, sorted: seq<Item>)
    requires StrictTotal(ItemLess) && sorted == Sort(candidates, ItemLess)
    requires forall i, j | 0 <= i < j < |candidates| :: candidates[i].node != candidates[j].node
    ensures forall i, j | 0 <= i < j < |sorted| :: sorted[i].node != sorted[j].node
  {
    assert Distinct(candidates);
    hide ItemLess, Ascending, Sorted, StrictTotal;
    SortDistinct(candidates, ItemLess);
    SortMembers(candidates, ItemLess);
    hide Sort;
    forall i, j | 0 <= i < j < |sorted| ensures sorted[i].node != sorted[j].node {
      assert sorted[i] in sorted && sorted[j] in sorted && sorted[i] != sorted[j];
      var a :| 0 <= a < |candidates| && candidates[a] == sorted[i];
      var b :| 0 <= b < |candidates| && candidates[b] == sorted[j];
      assert a != b;
    }
  }
}
