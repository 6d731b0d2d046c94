/** The layered graph of an HNSW index, and what a best-first search of one layer must return. */
module HnswGraph {
  import opened Ordering
  import opened Vectors

  /** A graph node; `neighbors[layer]` holds internal node ids. */
  datatype Node = Node(id: RecordId, vector: Vector, topLayer: nat, deleted: bool, neighbors: seq<seq<nat>>)

  type Nodes = seq<Node>

  /** A heap entry: a distance from the query and the node it belongs to. */
  datatype Item = Item(dist: Dist, node: nat)

  /** std::pair order: distance, then internal id. */
  predicate ItemLess(a: Item, b: Item) { a.dist < b.dist || (a.dist == b.dist && a.node < b.node) }

  predicate ItemMore(a: Item, b: Item) { ItemLess(b, a) }

  lemma ItemOrder()
    ensures StrictTotal(ItemLess) && StrictTotal(ItemMore)
  {
  }

  function Nearest(heap: set<Item>): (m: Item)
    requires heap != {}
    ensures m in heap && forall y | y in heap :: m.dist <= y.dist
  {
    ItemOrder();
    Least(heap, ItemLess)
  }

  function Farthest(heap: set<Item>): (m: Item)
    requires heap != {}
    ensures m in heap && forall y | y in heap :: y == m || ItemLess(y, m)
  {
    ItemOrder();
    Least(heap, ItemMore)
  }

  /** One layer of the graph as a query sees it. */
  datatype View = View(nodes: Nodes, metric: Metric, q: Vector, layer: nat) {

    predicate On(x: nat) { x < |nodes| && layer <= nodes[x].topLayer && layer < |nodes[x].neighbors| }

    function Adjacent(x: nat): seq<nat> { if On(x) then nodes[x].neighbors[layer] else [] }

    function Dist(x: nat): Dist { if x < |nodes| then Score(metric, q, nodes[x].vector) else INFINITY }

    function ItemOf(x: nat): Item { Item(Dist(x), x) }

    /** The nodes of the layer. */
    function Universe(): set<nat> { set x: nat | x < |nodes| && On(x) }

    /** Edges of the layer stay on the layer. */
    ghost predicate Closed() { forall x, e | On(x) && e in Adjacent(x) :: On(e) }

    ghost predicate Path(p: seq<nat>) {
      |p| > 0 && forall i | 0 <= i < |p| - 1 :: p[i + 1] in Adjacent(p[i])
    }

    ghost predicate Reachable(from: set<nat>, x: nat) {
      exists p :: Path(p) && p[0] in from && p[|p| - 1] == x
    }

    ghost predicate Expanded(visited: set<nat>, x: nat) { forall e | e in Adjacent(x) :: e in visited }

    lemma ReachSelf(from: set<nat>, x: nat)
      requires x in from
      ensures Reachable(from, x)
    {
      assert Path([x]) && [x][0] in from;
    }

    lemma ReachStep(from: set<nat>, x: nat, e: nat)
      requires Reachable(from, x) && e in Adjacent(x)
      ensures Reachable(from, e)
    {
      var p :| Path(p) && p[0] in from && p[|p| - 1] == x;
      var p' := p + [e];
      assert Path(p') && p'[0] in from && p'[|p'| - 1] == e;
    }

    /** A set that contains the sources and every neighbour of its members contains all that is reachable. */
    lemma {:induction false} ReachWithin(from: set<nat>, S: set<nat>, p: seq<nat>)
      requires from <= S && (forall x | x in S :: Expanded(S, x))
      requires Path(p) && p[0] in from
      ensures p[|p| - 1] in S
      decreases |p|
    {
      var n := |p|;
      if n > 1 {
        var init := p[..n - 1];
        assert Path(init);
        ReachWithin(from, S, init);
        assert p[n - 1] in Adjacent(p[n - 2]);
      }
    }

    /** Where a greedy descent of this layer from `entry` ends: no neighbour is strictly closer. */
    ghost predicate Descended(entry: nat, x: nat) {
      && On(x) && Reachable({entry}, x) && Dist(x) <= Dist(entry)
      && forall e | e in Adjacent(x) :: Dist(x) <= Dist(e)
    }

    /** What a search of this layer for the `ef` nearest returns, and the set it visited. */
    ghost predicate Answers(from: set<nat>, ef: nat, out: seq<Item>, visited: set<nat>) {
      // increasing by distance, hence duplicate-free, with true distances
      && Ascending(out, ItemLess) && |out| <= ef
      && (forall r | r in out :: On(r.node) && r == ItemOf(r.node) && r.node in visited)
      // only reachable nodes are visited; the entries and the neighbours of every result are
      && from <= visited && (forall x | x in visited :: On(x) && Reachable(from, x))
      && (forall r | r in out :: Expanded(visited, r.node))
      // not full: the result is everything reachable
      && (|out| < ef ==> forall x: nat :: ItemOf(x) in out <==> Reachable(from, x))
      // full: nothing visited and left out is closer than the farthest result
      && (|out| == ef ==> forall x, r | x in visited && r in out :: ItemOf(x) in out || r.dist <= Dist(x))
    }
  }

  // ---------------------------------------------------------------- the search invariant

  /** Only reachable nodes are visited, the entries among them. */
  ghost predicate Found(v: View, from: set<nat>, visited: set<nat>) {
    from <= visited && forall x | x in visited :: v.On(x) && v.Reachable(from, x)
  }

  /** Heap entries are visited nodes with their true distances. */
  ghost predicate Measured(v: View, heap: set<Item>, visited: set<nat>) {
    forall r | r in heap :: r.node in visited && r == v.ItemOf(r.node)
  }

  /** A result is still a candidate, or being expanded, or all its neighbours are visited. */
  ghost predicate Frontier(v: View, cands: set<Item>, result: set<Item>, visited: set<nat>, pending: set<nat>) {
    forall r | r in result :: r in cands || r.node in pending || v.Expanded(visited, r.node)
  }

  /** Everything visited is in the result, or the result is full and holds nothing farther. */
  ghost predicate Covered(v: View, ef: nat, result: set<Item>, visited: set<nat>) {
    forall x | x in visited ::
      v.ItemOf(x) in result || (|result| == ef && forall r | r in result :: r.dist <= v.Dist(x))
  }

  /** `pending` is the node being expanded, if any. */
  ghost predicate Searching(v: View, from: set<nat>, ef: nat, cands: set<Item>, result: set<Item>,
                            visited: set<nat>, pending: set<nat>) {
    && Found(v, from, visited) && Measured(v, result, visited) && Measured(v, cands, visited)
    && |result| <= ef && Frontier(v, cands, result, visited, pending) && Covered(v, ef, result, visited)
  }

  /** Keeping the ef nearest: adding a node to the result and dropping the farthest when it overflows. */
  function Keep(result: set<Item>, item: Item, ef: nat): set<Item> {
    var grown := result + {item};
    if |grown| > ef then grown - {Farthest(grown)} else grown
  }

  lemma KeepFacts(v: View, result: set<Item>, x: nat, ef: nat)
    requires v.ItemOf(x) !in result && 1 <= ef && |result| <= ef
    ensures |Keep(result, v.ItemOf(x), ef)| <= ef
    ensures Keep(result, v.ItemOf(x), ef) <= result + {v.ItemOf(x)}
    ensures |result| == ef ==> |Keep(result, v.ItemOf(x), ef)| == ef
    ensures forall y | y in result + {v.ItemOf(x)} && y !in Keep(result, v.ItemOf(x), ef) ::
              |result| == ef && forall r | r in Keep(result, v.ItemOf(x), ef) :: r.dist <= y.dist
  {
    var grown := result + {v.ItemOf(x)};
    if |grown| > ef {
      var f := Farthest(grown);
      assert |grown - {f}| == |grown| - 1;
    }
  }

  lemma CoveredAfterKeep(v: View, ef: nat, result: set<Item>, visited: set<nat>, e: nat)
    requires Covered(v, ef, result, visited) && v.ItemOf(e) !in result && 1 <= ef && |result| <= ef
    requires |result| < ef || exists r | r in result :: v.Dist(e) < r.dist
    ensures Covered(v, ef, Keep(result, v.ItemOf(e), ef), visited + {e})
  {
    KeepFacts(v, result, e, ef);
    var result' := Keep(result, v.ItemOf(e), ef);
    if |result| == ef {
      var far :| far in result && v.Dist(e) < far.dist;
      forall x, r | x in visited && v.ItemOf(x) !in result && r in result' ensures r.dist <= v.Dist(x) {
        assert r in result || r == v.ItemOf(e);
        assert far.dist <= v.Dist(x);
      }
    }
  }

  lemma Progress(universe: set<nat>, before: set<nat>, after: set<nat>)
    requires before <= after <= universe && before != after
    ensures universe - after < universe - before
  {
    var x :| x in after && x !in before;
    assert x in universe - before;
  }

  lemma FoundWithin(v: View, from: set<nat>, visited: set<nat>)
    requires Found(v, from, visited)
    ensures visited <= v.Universe()
  {
  }

  lemma FrontierGrows(v: View, cands: set<Item>, result: set<Item>, visited: set<nat>, pending: set<nat>, e: nat)
    requires Frontier(v, cands, result, visited, pending)
    ensures Frontier(v, cands, result, visited + {e}, pending)
  {
  }

  lemma FoundGrows(v: View, from: set<nat>, visited: set<nat>, x: nat, e: nat)
    requires v.Closed() && Found(v, from, visited) && x in visited && e in v.Adjacent(x)
    ensures Found(v, from, visited + {e})
  {
    v.ReachStep(from, x, e);
  }

  lemma MeasuredGrows(v: View, heap: set<Item>, visited: set<nat>, e: nat)
    requires Measured(v, heap, visited)
    ensures Measured(v, heap, visited + {e}) && Measured(v, heap + {v.ItemOf(e)}, visited + {e})
  {
  }

  lemma MeasuredWithin(v: View, heap: set<Item>, sub: set<Item>, visited: set<nat>)
    requires Measured(v, heap, visited) && sub <= heap
    ensures Measured(v, sub, visited)
  {
  }

  lemma FrontierKeeps(v: View, cands: set<Item>, result: set<Item>, visited: set<nat>, pending: set<nat>, e: nat,
                      result': set<Item>)
    requires Frontier(v, cands, result, visited, pending) && result' <= result + {v.ItemOf(e)}
    ensures Frontier(v, cands + {v.ItemOf(e)}, result', visited + {e}, pending)
  {
  }

  lemma VisitAccepted(v: View, from: set<nat>, ef: nat, cands: set<Item>, result: set<Item>, visited: set<nat>,
                      pending: nat, e: nat)
    requires v.Closed() && Searching(v, from, ef, cands, result, visited, {pending}) && ef >= 1
    requires pending in visited && e in v.Adjacent(pending) && e !in visited
    requires |result| < ef || exists r | r in result :: v.Dist(e) < r.dist
    ensures Searching(v, from, ef, cands + {v.ItemOf(e)}, Keep(result, v.ItemOf(e), ef), visited + {e}, {pending})
  {
    assert v.ItemOf(e) !in result;
    hide Found, Measured, Frontier, Covered, Keep;
    FoundGrows(v, from, visited, pending, e);
    CoveredAfterKeep(v, ef, result, visited, e);
    KeepFacts(v, result, e, ef);
    MeasuredGrows(v, cands, visited, e);
    MeasuredGrows(v, result, visited, e);
    MeasuredWithin(v, result + {v.ItemOf(e)}, Keep(result, v.ItemOf(e), ef), visited + {e});
    FrontierKeeps(v, cands, result, visited, {pending}, e, Keep(result, v.ItemOf(e), ef));
  }

  lemma VisitRejected(v: View, from: set<nat>, ef: nat, cands: set<Item>, result: set<Item>, visited: set<nat>,
                      pending: nat, e: nat)
    requires v.Closed() && Searching(v, from, ef, cands, result, visited, {pending}) && ef >= 1
    requires pending in visited && e in v.Adjacent(pending) && e !in visited
    requires |result| == ef && forall r | r in result :: r.dist <= v.Dist(e)
    ensures Searching(v, from, ef, cands, result, visited + {e}, {pending})
  {
    hide Found, Measured, Frontier, Covered;
    CoveredRejected(v, ef, result, visited, e);
    FoundGrows(v, from, visited, pending, e);
    MeasuredGrows(v, cands, visited, e);
    MeasuredGrows(v, result, visited, e);
    FrontierGrows(v, cands, result, visited, {pending}, e);
  }

  lemma CoveredRejected(v: View, ef: nat, result: set<Item>, visited: set<nat>, e: nat)
    requires Covered(v, ef, result, visited) && |result| == ef && forall r | r in result :: r.dist <= v.Dist(e)
    ensures Covered(v, ef, result, visited + {e})
  {
  }

  /** Popping the nearest candidate makes it the pending node. */
  lemma PopKeeps(v: View, from: set<nat>, ef: nat, cands: set<Item>, result: set<Item>, visited: set<nat>, c: Item)
    requires Searching(v, from, ef, cands, result, visited, {}) && c in cands
    ensures Searching(v, from, ef, cands - {c}, result, visited, {c.node}) && c.node in visited
  {
    hide Found, Covered;
  }

  /** Once all its neighbours are visited, the pending node is expanded. */
  lemma PendingDone(v: View, from: set<nat>, ef: nat, cands: set<Item>, result: set<Item>, visited: set<nat>, x: nat)
    requires Searching(v, from, ef, cands, result, visited, {x}) && v.Expanded(visited, x)
    ensures Searching(v, from, ef, cands, result, visited, {})
  {
  }

  /** Dropping the farthest result of an over-full entry set. */
  lemma TrimKeeps(v: View, ef: nat, result: set<Item>, visited: set<nat>)
    requires |result| > ef
    requires forall x | x in visited :: v.ItemOf(x) in result || forall r | r in result :: r.dist <= v.Dist(x)
    ensures var t := result - {Farthest(result)};
            |t| == |result| - 1 &&
            forall x | x in visited :: v.ItemOf(x) in t || forall r | r in t :: r.dist <= v.Dist(x)
  {
    var f := Farthest(result);
    assert f in result;
  }

  /** Every result is nearer than every remaining candidate. */
  ghost predicate Separated(result: set<Item>, cands: set<Item>) {
    forall r, c | r in result && c in cands :: r.dist < c.dist
  }

  lemma EarlyExit(result: set<Item>, cands: set<Item>)
    requires result != {} && cands != {} && Farthest(result).dist < Nearest(cands).dist
    ensures Separated(result, cands)
  {
  }

  lemma NotFullIsAll(v: View, from: set<nat>, out: seq<Item>, visited: set<nat>, ef: nat)
    requires v.Answers(from, ef, out, visited) && |out| < ef
    ensures forall x: nat :: v.ItemOf(x) in out <==> v.Reachable(from, x)
  {
    hide View.ItemOf, View.Reachable, View.On, View.Expanded, Ascending;
  }

  /** Both exits of the search loop deliver what Answers promises. */
  lemma ExitAnswers(v: View, from: set<nat>, ef: nat, cands: set<Item>, result: set<Item>, visited: set<nat>,
                    out: seq<Item>)
    requires v.Closed() && Searching(v, from, ef, cands, result, visited, {}) && ef >= 1
    requires cands == {} || (|result| == ef && Separated(result, cands))
    requires Enumerates(out, result, ItemLess) && |out| == |result|
    ensures v.Answers(from, ef, out, visited)
  {
    assert forall r | r in result :: r !in cands;
    assert forall r | r in out :: v.Expanded(visited, r.node);
    if |out| < ef {
      assert forall x | x in visited :: v.ItemOf(x) in result;
      forall x | x in visited ensures v.Expanded(visited, x) {
        assert v.ItemOf(x) in out;
      }
      forall x: nat ensures v.ItemOf(x) in out <==> v.Reachable(from, x) {
        if v.Reachable(from, x) {
          var p :| v.Path(p) && p[0] in from && p[|p| - 1] == x;
          v.ReachWithin(from, visited, p);
        }
      }
    }
  }

  /** A full answer is exact on its own sublevel: what is reachable through nodes nearer than
      the farthest result is in the result. */
  lemma {:induction false} SublevelComplete(v: View, from: set<nat>, ef: nat, out: seq<Item>, visited: set<nat>,
                             p: seq<nat>)
    requires v.Answers(from, ef, out, visited) && |out| == ef >= 1
    requires v.Path(p) && p[0] in from
    requires forall i | 0 <= i < |p| :: v.Dist(p[i]) < out[ef - 1].dist
    ensures v.ItemOf(p[|p| - 1]) in out
    decreases |p|
  {
    var n := |p|;
    var last := p[n - 1];
    if n > 1 {
      var init := p[..n - 1];
      assert v.Path(init);
      SublevelComplete(v, from, ef, out, visited, init);
      assert v.Expanded(visited, v.ItemOf(p[n - 2]).node);
    }
    assert last in visited && out[ef - 1] in out;
  }

  /** An answer names distinct nodes, so it is never longer than the node list. */
  lemma DistinctNodes(v: View, from: set<nat>, ef: nat, out: seq<Item>, visited: set<nat>)
    requires v.Answers(from, ef, out, visited)
    ensures forall i, j | 0 <= i < j < |out| :: out[i].node != out[j].node
    ensures |out| <= |v.nodes|
  {
    forall i, j | 0 <= i < j < |out| ensures out[i].node != out[j].node {
      assert out[i] in out && out[j] in out && ItemLess(out[i], out[j]);
    }
    forall i | 0 <= i < |out| ensures out[i].node < |v.nodes| { assert out[i] in out && v.On(out[i].node); }
    hide View.Answers;
    Pigeonhole(seq(|out|, i requires 0 <= i < |out| => out[i].node), |v.nodes|);
  }

  /** Distinct numbers below n are at most n. */
  lemma {:induction false} Pigeonhole(s: seq<nat>, n: nat)
    requires Distinct(s) && forall x | x in s :: x < n
    ensures |s| <= n
    decreases n
  {
    forall i | 0 <= i < |s| ensures s[i] < n { assert s[i] in s; }
    assert |s| > 0 ==> s[0] < n;
    if n > 0 {
      if i :| 0 <= i < |s| && s[i] == n - 1 {
        var t := s[..i] + s[i + 1..];
        forall x | x in t ensures x < n - 1 {
          assert x in s;
          assert x != n - 1;
        }
        Pigeonhole(t, n - 1);
      } else {
        Pigeonhole(s, n - 1);
      }
    }
  }
}
