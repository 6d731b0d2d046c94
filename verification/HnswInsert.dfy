/** What an insertion does to the lists of the graph, said of the graphs before and after it. */
module HnswInsert {
  import opened Ordering
  import opened Vectors
  import opened HnswGraph
  import opened HnswSelect
  import opened HnswModel
  import opened HnswSteps

  // ---------------------------------------------------------------- where a layer is entered

  /** The stops of a greedy walk through the layers hi, hi - 1, ..., lo + 1: each stop is reached from the one before it
      on that layer, is no farther from `q`, and has no neighbour there that is nearer. */
  ghost predicate Stops(nodes: Nodes, metric: Metric, q: Vector, hi: int, lo: int, stops: seq<nat>) {
    && lo <= hi && |stops| == hi - lo + 1 && (forall s | s in stops :: s < |nodes|)
    && forall i | 0 <= i < hi - lo :: Stop(nodes, metric, q, hi - i, stops[i], stops[i + 1])
  }

  ghost predicate Stop(nodes: Nodes, metric: Metric, q: Vector, layer: int, from: nat, to: nat) {
    && 0 <= layer && from < |nodes| && to < |nodes| && View(nodes, metric, q, layer).Reachable({from}, to)
    && Score(metric, q, nodes[to].vector) <= Score(metric, q, nodes[from].vector)
    && forall e | e in ListOf(nodes, to, layer) && e < |nodes| ::
         Score(metric, q, nodes[to].vector) <= Score(metric, q, nodes[e].vector)
  }

  lemma DescendedStops(nodes: Nodes, metric: Metric, q: Vector, layer: nat, from: nat, to: nat)
    requires View(nodes, metric, q, layer).Descended(from, to) && from < |nodes|
    ensures Stop(nodes, metric, q, layer, from, to)
  {
    var v := View(nodes, metric, q, layer);
    hide Score, View.Reachable;
    forall e | e in ListOf(nodes, to, layer) && e < |nodes|
      ensures Score(metric, q, nodes[to].vector) <= Score(metric, q, nodes[e].vector)
    {
      assert e in v.Adjacent(to) && v.Dist(to) <= v.Dist(e);
    }
  }

  /** A descent is such a walk. */
  lemma {:induction false} DescentStops(p: Params, nodes: Nodes, q: Vector, from: nat, hi: int, lo: int, to: nat)
      returns (stops: seq<nat>)
    requires Descent(p, nodes, q, from, hi, lo, to) && -1 <= lo <= hi && from < |nodes|
    ensures Stops(nodes, p.metric, q, hi, lo, stops) && stops[0] == from && stops[hi - lo] == to
    decreases hi - lo
  {
    hide Stop;
    if lo == hi {
      return [from];
    }
    var mid: nat :| Descent(p, nodes, q, from, hi, lo + 1, mid) && DescendedAbove(p, nodes, q, lo, mid, to);
    var before := DescentStops(p, nodes, q, from, hi, lo + 1, mid);
    DescendedStops(nodes, p.metric, q, lo + 1, mid, to);
    assert Stop(nodes, p.metric, q, lo + 1, mid, to) && to < |nodes| by {
      assert View(nodes, p.metric, q, lo + 1).Descended(mid, to);
    }
    stops := before + [to];
    forall i | 0 <= i < hi - lo ensures Stop(nodes, p.metric, q, hi - i, stops[i], stops[i + 1]) {
      if i < hi - lo - 1 { assert stops[i] == before[i] && stops[i + 1] == before[i + 1]; }
    }
  }

  // ---------------------------------------------------------------- what a layer offers, and how it is linked

  /** Nearest first, equally near ones by internal id. */
  ghost predicate ByDistance(items: seq<Item>) {
    forall i, j | 0 <= i < j < |items| ::
      items[i].dist < items[j].dist || (items[i].dist == items[j].dist && items[i].node < items[j].node)
  }

  /** The item names the node. */
  ghost predicate Names(items: seq<Item>, x: nat) { exists c :: c in items && c.node == x }

  /** What a layer, entered at a node, offers to a new record: nodes it reaches, nearest first and at most
      ef_construction of them; all it reaches when there are fewer, and otherwise all it reaches through nodes nearer
      than the farthest one offered. */
  ghost predicate Offered(p: Params, before: Nodes, vec: Vector, layer: nat, entered: nat, found: seq<Item>) {
    var v := View(before, p.metric, vec, layer);
    && found != [] && |found| <= p.efConstruction && ByDistance(found)
    && (forall c | c in found ::
          c.node < |before| && c.dist == Score(p.metric, vec, before[c.node].vector) && v.Reachable({entered}, c.node))
    && (|found| < p.efConstruction ==> forall x: nat | v.Reachable({entered}, x) :: Names(found, x))
    && (|found| == p.efConstruction ==>
          forall path | NearPath(v, entered, found[|found| - 1].dist, path) :: Names(found, path[|path| - 1]))
  }

  /** A path from a node through nodes nearer than `radius`. */
  ghost predicate NearPath(v: View, from: nat, radius: Dist, path: seq<nat>) {
    && path != [] && path[0] == from && v.Path(path)
    && forall i | 0 <= i < |path| :: path[i] < |v.nodes| && Score(v.metric, v.q, v.nodes[path[i]].vector) < radius
  }

  /** `list` is the diverse selection of at most `m` of the offered items. */
  ghost predicate Chosen(metric: Metric, vectors: seq<Vector>, items: seq<Item>, m: nat, list: seq<nat>) {
    exists pos: seq<nat> :: Selection(metric, vectors, items, m, pos) && list == At(items, pos)
  }

  /** The nodes of `list`, each once, by their distance from `owner`. */
  ghost predicate RankedFrom(metric: Metric, vectors: seq<Vector>, owner: nat, list: seq<nat>, items: seq<Item>) {
    && ByDistance(items) && (forall x: nat :: Names(items, x) <==> x in list)
    && forall c | c in items :: c.node < |vectors| && owner < |vectors|
                                && c.dist == Score(metric, vectors[owner], vectors[c.node])
  }

  /** The list of a node after `node` was added to it: one longer, or a diverse selection when that is too long. */
  ghost predicate Extended(p: Params, vectors: seq<Vector>, owner: nat, before: seq<nat>, node: nat, layer: nat,
                           after: seq<nat>) {
    if |before| + 1 <= Limit(p, layer) then after == before + [node]
    else exists items :: RankedFrom(p.metric, vectors, owner, before + [node], items)
                         && Chosen(p.metric, vectors, items, Limit(p, layer), after)
  }

  /** The lists of one layer after the new node `|before|` was linked to a diverse selection of the items. */
  ghost predicate Rewired(p: Params, before: Nodes, vectors: seq<Vector>, layer: nat, found: seq<Item>, after: Nodes) {
    var node := |before|;
    && Chosen(p.metric, vectors, found, Limit(p, layer), ListOf(after, node, layer))
    && forall x: nat | x < node ::
         if x in ListOf(after, node, layer)
         then Extended(p, vectors, x, ListOf(before, x, layer), node, layer, ListOf(after, x, layer))
         else ListOf(after, x, layer) == ListOf(before, x, layer)
  }

  // ---------------------------------------------------------------- one layer

  /** `n` is `before` with one more node, unlinked on the layer, and the same lists there. */
  ghost predicate SameLayer(before: Nodes, n: Nodes, layer: nat) {
    && |n| == |before| + 1 && (forall x: nat :: ListOf(n, x, layer) == ListOf(before, x, layer))
    && forall x: nat | x < |before| ::
         n[x].vector == before[x].vector && n[x].topLayer == before[x].topLayer
         && |n[x].neighbors| == |before[x].neighbors|
  }

  lemma SameAdjacent(p: Params, before: Nodes, n: Nodes, vec: Vector, layer: nat, x: nat)
    requires Shaped(before) && Shaped(n) && SameLayer(before, n, layer)
    ensures View(before, p.metric, vec, layer).Adjacent(x) == View(n, p.metric, vec, layer).Adjacent(x)
            == ListOf(before, x, layer)
  {
    assert ListOf(n, x, layer) == ListOf(before, x, layer);
  }

  lemma SamePaths(p: Params, before: Nodes, n: Nodes, vec: Vector, layer: nat)
    requires Shaped(before) && Shaped(n) && SameLayer(before, n, layer)
    ensures forall path ::
      View(before, p.metric, vec, layer).Path(path) <==> View(n, p.metric, vec, layer).Path(path)
  {
    hide SameLayer, Shaped, View.Adjacent;
    var v, w := View(before, p.metric, vec, layer), View(n, p.metric, vec, layer);
    forall x: nat ensures v.Adjacent(x) == w.Adjacent(x) { SameAdjacent(p, before, n, vec, layer, x); }
  }

  lemma SameReach(p: Params, before: Nodes, n: Nodes, vec: Vector, layer: nat, from: nat, x: nat)
    requires Shaped(before) && Shaped(n) && SameLayer(before, n, layer)
    ensures View(before, p.metric, vec, layer).Reachable({from}, x)
      <==> View(n, p.metric, vec, layer).Reachable({from}, x)
  {
    SamePaths(p, before, n, vec, layer);
    hide SameLayer, Shaped, View.Path;
    var v, w := View(before, p.metric, vec, layer), View(n, p.metric, vec, layer);
    if v.Reachable({from}, x) {
      var path :| v.Path(path) && path[0] in {from} && path[|path| - 1] == x;
      assert w.Path(path);
    }
    if w.Reachable({from}, x) {
      var path :| w.Path(path) && path[0] in {from} && path[|path| - 1] == x;
      assert v.Path(path);
    }
  }

  /** What the search of the layer returns is what the layer of the graph before offers. */
  lemma SearchOffers(p: Params, before: Nodes, n: Nodes, vec: Vector, layer: nat, cur: nat, found: seq<Item>,
                     visited: set<nat>)
    requires Shaped(before) && Shaped(n) && SameLayer(before, n, layer) && cur < |before| && p.efConstruction >= 1
    requires View(n, p.metric, vec, layer).Answers({cur}, p.efConstruction, found, visited)
    requires forall c | c in found :: c.node < |before|
    ensures Offered(p, before, vec, layer, cur, found)
  {
    hide Shaped, View.Reachable, View.Path, View.Answers, SameLayer, Score, ByDistance, Names, NearPath;
    AnswerSorted(View(n, p.metric, vec, layer), {cur}, p.efConstruction, found, visited);
    OfferedReached(p, before, n, vec, layer, cur, found, visited);
    if |found| < p.efConstruction {
      AllOffered(p, before, n, vec, layer, cur, found, visited);
    } else {
      NearOffered(p, before, n, vec, layer, cur, found, visited);
    }
  }

  lemma AnswerSorted(v: View, from: set<nat>, ef: nat, found: seq<Item>, visited: set<nat>)
    requires v.Answers(from, ef, found, visited)
    ensures ByDistance(found) && |found| <= ef
  {
    AscendingByDistance(found);
  }

  lemma OfferedReached(p: Params, before: Nodes, n: Nodes, vec: Vector, layer: nat, cur: nat, found: seq<Item>,
                       visited: set<nat>)
    requires Shaped(before) && Shaped(n) && SameLayer(before, n, layer)
    requires View(n, p.metric, vec, layer).Answers({cur}, p.efConstruction, found, visited)
    requires forall c | c in found :: c.node < |before|
    ensures forall c | c in found ::
      c.dist == Score(p.metric, vec, before[c.node].vector)
      && View(before, p.metric, vec, layer).Reachable({cur}, c.node)
  {
    var v, w := View(before, p.metric, vec, layer), View(n, p.metric, vec, layer);
    hide Shaped, View.Reachable, Score;
    forall c | c in found
      ensures c.dist == Score(p.metric, vec, before[c.node].vector) && v.Reachable({cur}, c.node)
    {
      assert w.On(c.node) && c == w.ItemOf(c.node) && w.Reachable({cur}, c.node);
      SameReach(p, before, n, vec, layer, cur, c.node);
    }
  }

  lemma AllOffered(p: Params, before: Nodes, n: Nodes, vec: Vector, layer: nat, cur: nat, found: seq<Item>,
                   visited: set<nat>)
    requires Shaped(before) && Shaped(n) && SameLayer(before, n, layer)
    requires View(n, p.metric, vec, layer).Answers({cur}, p.efConstruction, found, visited)
    requires |found| < p.efConstruction
    ensures found != [] && forall x: nat | View(before, p.metric, vec, layer).Reachable({cur}, x) :: Names(found, x)
  {
    var v, w := View(before, p.metric, vec, layer), View(n, p.metric, vec, layer);
    w.ReachSelf({cur}, cur);
    assert forall x: nat :: w.ItemOf(x) in found <==> w.Reachable({cur}, x);
    hide Shaped, View.Reachable, SameLayer, View.Answers;
    forall x: nat | v.Reachable({cur}, x) ensures Names(found, x) {
      SameReach(p, before, n, vec, layer, cur, x);
      assert w.ItemOf(x) in found;
    }
    assert w.ItemOf(cur) in found;
  }

  lemma SameDistance(p: Params, before: Nodes, n: Nodes, vec: Vector, layer: nat, x: nat)
    requires SameLayer(before, n, layer) && x < |before|
    ensures View(n, p.metric, vec, layer).Dist(x) == Score(p.metric, vec, before[x].vector)
  {
    hide Score;
  }

  lemma NearOffered(p: Params, before: Nodes, n: Nodes, vec: Vector, layer: nat, cur: nat, found: seq<Item>,
                    visited: set<nat>)
    requires Shaped(before) && Shaped(n) && SameLayer(before, n, layer) && cur < |before|
    requires View(n, p.metric, vec, layer).Answers({cur}, p.efConstruction, found, visited)
    requires |found| == p.efConstruction >= 1
    ensures forall path | NearPath(View(before, p.metric, vec, layer), cur, found[|found| - 1].dist, path) ::
      Names(found, path[|path| - 1])
  {
    hide Shaped, View.Answers, SameLayer, Names, View.Path, Score;
    forall path | NearPath(View(before, p.metric, vec, layer), cur, found[|found| - 1].dist, path)
      ensures Names(found, path[|path| - 1])
    {
      OneNearOffered(p, before, n, vec, layer, cur, found, visited, path);
    }
  }

  lemma OneNearOffered(p: Params, before: Nodes, n: Nodes, vec: Vector, layer: nat, cur: nat, found: seq<Item>,
                       visited: set<nat>, path: seq<nat>)
    requires Shaped(before) && Shaped(n) && SameLayer(before, n, layer) && cur < |before|
    requires View(n, p.metric, vec, layer).Answers({cur}, p.efConstruction, found, visited)
    requires |found| == p.efConstruction >= 1
    requires NearPath(View(before, p.metric, vec, layer), cur, found[|found| - 1].dist, path)
    ensures path != [] && Names(found, path[|path| - 1])
  {
    hide Shaped, View.Path, View.Answers, Score, SameLayer, View.Dist, NearPath;
    var w := View(n, p.metric, vec, layer);
    NearPathMoves(p, before, n, vec, layer, cur, found[|found| - 1].dist, path);
    SublevelComplete(w, {cur}, p.efConstruction, found, visited, path);
    assert w.ItemOf(path[|path| - 1]) in found;
  }

  lemma NearPathMoves(p: Params, before: Nodes, n: Nodes, vec: Vector, layer: nat, cur: nat, radius: Dist,
                      path: seq<nat>)
    requires Shaped(before) && Shaped(n) && SameLayer(before, n, layer)
    requires NearPath(View(before, p.metric, vec, layer), cur, radius, path)
    ensures path != [] && path[0] == cur && View(n, p.metric, vec, layer).Path(path)
    ensures forall i | 0 <= i < |path| :: View(n, p.metric, vec, layer).Dist(path[i]) < radius
  {
    hide Shaped, View.Path, Score, SameLayer, View.Dist;
    SamePaths(p, before, n, vec, layer);
    var v, w := View(before, p.metric, vec, layer), View(n, p.metric, vec, layer);
    assert v.Path(path) <==> w.Path(path);
    forall i | 0 <= i < |path| ensures w.Dist(path[i]) < radius {
      SameDistance(p, before, n, vec, layer, path[i]);
    }
  }

  /** A list that is sorted already is sorted to itself. */
  lemma SortedAlready(items: seq<Item>)
    requires Ascending(items, ItemLess)
    ensures StrictTotal(ItemLess) && Sort(items, ItemLess) == items
  {
    ItemOrder();
    AscendingDistinct(items, ItemLess);
    SortDistinct(items, ItemLess);
    SortMembers(items, ItemLess);
    EnumerationUnique(Sort(items, ItemLess), items, ItemLess);
  }

  lemma AscendingByDistance(items: seq<Item>)
    ensures ByDistance(items) <==> Ascending(items, ItemLess)
  {
    if ByDistance(items) {
      forall i, j | 0 <= i < j < |items| ensures ItemLess(items[i], items[j]) { }
    }
    if Ascending(items, ItemLess) {
      forall i, j | 0 <= i < j < |items|
        ensures items[i].dist < items[j].dist || (items[i].dist == items[j].dist && items[i].node < items[j].node)
      {
        assert ItemLess(items[i], items[j]);
      }
    }
  }

  lemma SelectChosen(metric: Metric, vectors: seq<Vector>, items: seq<Item>, m: nat)
    requires ByDistance(items)
    ensures Chosen(metric, vectors, items, m, Select(metric, vectors, items, m))
  {
    AscendingByDistance(items);
    SortedAlready(items);
    hide Selection, Select, Sort;
    var pos := SelectIsSelection(metric, vectors, items, m);
  }

  lemma RawItems(metric: Metric, vectors: seq<Vector>, owner: nat, list: seq<nat>)
    requires Distinct(list) && owner < |vectors| && forall e | e in list :: e < |vectors|
    ensures var raw := Rescored(metric, vectors, owner, list);
      && Distinct(raw) && (forall x: nat :: Names(raw, x) <==> x in list)
      && forall c | c in raw :: c.node < |vectors| && c.dist == Score(metric, vectors[owner], vectors[c.node])
  {
    hide Score;
    var raw := Rescored(metric, vectors, owner, list);
    assert forall i | 0 <= i < |list| :: raw[i].node == list[i] && list[i] in list;
    forall x: nat ensures Names(raw, x) <==> x in list {
      if x in list {
        var i :| 0 <= i < |list| && list[i] == x;
        assert raw[i] in raw && raw[i].node == x;
      }
    }
  }

  /** The candidates an overflowing list offers are scored from its owner. */
  lemma RescoredScored(metric: Metric, vectors: seq<Vector>, owner: nat, list: seq<nat>)
    requires Distinct(list) && owner < |vectors| && forall e | e in list :: e < |vectors|
    ensures StrictTotal(ItemLess)
    ensures RankedFrom(metric, vectors, owner, list, Sort(Rescored(metric, vectors, owner, list), ItemLess))
  {
    hide Score, Rescored, ItemLess;
    ItemOrder();
    var raw := Rescored(metric, vectors, owner, list);
    RawItems(metric, vectors, owner, list);
    SortDistinct(raw, ItemLess);
    SortMembers(raw, ItemLess);
    var items := Sort(raw, ItemLess);
    AscendingByDistance(items);
    hide Sort, ByDistance;
    assert forall c :: c in items <==> c in raw;
    assert forall x: nat :: Names(items, x) <==> Names(raw, x);
  }

  /** The reciprocal edge extends a legal list. */
  lemma ReciprocalExtends(p: Params, vectors: seq<Vector>, other: nat, list: seq<nat>, node: nat, layer: nat)
    requires Distinct(list + [node]) && other < |vectors| && forall e | e in list + [node] :: e < |vectors|
    ensures Extended(p, vectors, other, list, node, layer, Reciprocal(p, vectors, other, list, node, layer))
  {
    hide Selection, Pass, Score, Rescored;
    var grown := list + [node];
    if |grown| > Limit(p, layer) {
      RescoredScored(p.metric, vectors, other, grown);
      var raw := Rescored(p.metric, vectors, other, grown);
      var items := Sort(raw, ItemLess);
      var pos := SelectIsSelection(p.metric, vectors, raw, Limit(p, layer));
      hide Sort, RankedFrom;
      assert Chosen(p.metric, vectors, items, Limit(p, layer), Reciprocal(p, vectors, other, list, node, layer));
    }
  }

  lemma WithoutNone(list: seq<nat>, x: nat)
    requires x !in list
    ensures Without(list, x) == list
  {
    if list != [] {
      assert list == [list[0]] + list[1..];
      WithoutNone(list[1..], x);
    }
  }

  /** The lists of the layer after linking: the new node's, its neighbours', and all others. */
  lemma LinkedLists(p: Params, n: Nodes, node: nat, others: seq<nat>, layer: nat, x: nat)
    requires Shaped(n) && node < |n| && layer <= n[node].topLayer && ListOf(n, node, layer) == [] && x < |n|
    requires x in others ==> layer <= n[x].topLayer
    ensures ListOf(Link(p, n, node, others, layer), x, layer) ==
      if x == node then others
      else if x in others then Reciprocal(p, VectorsOf(n), x, ListOf(n, x, layer), node, layer)
      else ListOf(n, x, layer)
  {
    hide Reciprocal;
    assert [] + others == others;
  }

  /** A legal list can take a fresh node. */
  lemma CanExtend(p: Params, n: Nodes, node: nat, x: nat, layer: nat)
    requires Linked(n, p) && x < |n| && node < |n| && Fresh(n, node, layer)
    ensures Distinct(ListOf(n, x, layer) + [node]) && forall e | e in ListOf(n, x, layer) + [node] :: e < |n|
  {
    var list := ListOf(n, x, layer);
    assert node !in list;
    if layer < |n[x].neighbors| {
      assert GoodNode(n, p, x);
      assert GoodList(n, p, x, layer, list);
    }
  }

  /** Connecting the new node rewires the layer as said. */
  lemma ConnectRewires(p: Params, before: Nodes, n: Nodes, layer: nat, found: seq<Item>)
    requires Linked(n, p) && SameLayer(before, n, layer) && Fresh(n, |before|, layer) && ByDistance(found)
    requires layer <= n[|before|].topLayer
    requires forall c | c in found :: c.node < |before| && layer <= n[c.node].topLayer
    requires forall i, j | 0 <= i < j < |found| :: found[i].node != found[j].node
    ensures Rewired(p, before, VectorsOf(n), layer, found, Connect(p, n, |before|, found, layer))
  {
    hide Linked, GoodList, Select, Link, Reciprocal, Chosen, Extended, ListOf, ByDistance;
    var node, vectors := |before|, VectorsOf(n);
    var others := Select(p.metric, vectors, found, Limit(p, layer));
    SelectWithin(p.metric, vectors, found, Limit(p, layer));
    SelectChosen(p.metric, vectors, found, Limit(p, layer));
    forall s | s in others ensures s < node && layer <= n[s].topLayer {
      var c :| c in found && c.node == s;
    }
    WithoutNone(others, node);
    LinkShape(p, n);
    LinkedLists(p, n, node, others, layer, node);
    var after := Link(p, n, node, others, layer);
    forall x: nat | x < node
      ensures if x in others
        then Extended(p, vectors, x, ListOf(before, x, layer), node, layer, ListOf(after, x, layer))
        else ListOf(after, x, layer) == ListOf(before, x, layer)
    {
      LinkedLists(p, n, node, others, layer, x);
      CanExtend(p, n, node, x, layer);
      ReciprocalExtends(p, vectors, x, ListOf(n, x, layer), node, layer);
    }
  }

  lemma LinkShape(p: Params, n: Nodes)
    requires Linked(n, p)
    ensures Shaped(n)
  {
  }

  /** One layer of an insertion, said of the graph before it. */
  lemma LayerWires(p: Params, before: Nodes, vec: Vector, layer: nat, n: Nodes, cur: nat, n': Nodes, cur': nat)
      returns (found: seq<Item>)
    requires Linked(before, p) && Linked(n, p) && SameLayer(before, n, layer) && Fresh(n, |before|, layer)
    requires n[|before|].vector == vec && layer <= n[|before|].topLayer && cur < |before| && p.efConstruction >= 1
    requires LayerLinked(p, |before|, layer, n, cur, n', cur')
    ensures Offered(p, before, vec, layer, cur, found) && Rewired(p, before, VectorsOf(n), layer, found, n')
    ensures found != [] && cur' == found[0].node < |before|
    ensures VectorsOf(n') == VectorsOf(n) && SameSkeleton(n, n')
    ensures forall x: nat, l: nat | l != layer :: ListOf(n', x, l) == ListOf(n, x, l)
  {
    hide Linked, SameLayer, Fresh, View.Answers, Connect, Offered, Rewired, ListOf, SameSkeleton;
    var node, v := |before|, View(n, p.metric, vec, layer);
    var visited: set<nat>;
    found, visited :| v.Answers({cur}, p.efConstruction, found, visited) && n' == Connect(p, n, node, found, layer)
      && cur' == if found == [] then cur else found[0].node;
    FoundGood(v, node, cur, p.efConstruction, found, visited);
    AnswerSorted(v, {cur}, p.efConstruction, found, visited);
    OldOnly(before, n, layer, found, p, vec);
    LinkShape(p, before);
    LinkShape(p, n);
    SearchOffers(p, before, n, vec, layer, cur, found, visited);
    ConnectRewires(p, before, n, layer, found);
    ConnectKeeps(p, n, node, found, layer);
    OfferedSome(p, before, vec, layer, cur, found);
  }

  lemma OfferedSome(p: Params, before: Nodes, vec: Vector, layer: nat, cur: nat, found: seq<Item>)
    requires Offered(p, before, vec, layer, cur, found)
    ensures found != []
  {
  }

  lemma OldOnly(before: Nodes, n: Nodes, layer: nat, found: seq<Item>, p: Params, vec: Vector)
    requires SameLayer(before, n, layer)
    requires forall c | c in found :: c.node != |before| && View(n, p.metric, vec, layer).On(c.node)
    ensures forall c | c in found :: c.node < |before| && layer <= n[c.node].topLayer
  {
  }

  lemma ConnectKeeps(p: Params, n: Nodes, node: nat, found: seq<Item>, layer: nat)
    ensures var n' := Connect(p, n, node, found, layer);
      && VectorsOf(n') == VectorsOf(n) && SameSkeleton(n, n')
      && forall x: nat, l: nat | l != layer :: ListOf(n', x, l) == ListOf(n, x, l)
  {
    hide Link, Select;
    LinkSkeleton(p, n, node, Without(Select(p.metric, VectorsOf(n), found, Limit(p, layer)), node), layer);
  }

  // ---------------------------------------------------------------- the whole insertion

  /** The layers lo, ..., hi of an insertion: each was entered at the nearest node the layer above offered, and linked
      to a diverse selection of what it offered itself. Layer lo + k is at place k. */
  ghost predicate WiredLayers(p: Params, before: Nodes, vec: Vector, vectors: seq<Vector>, lo: nat, hi: int,
                              entered: seq<nat>, found: seq<seq<Item>>, after: Nodes) {
    && lo <= hi + 1 && |entered| == |found| == hi + 1 - lo
    && (forall k | 0 <= k < |found| ::
          Offered(p, before, vec, lo + k, entered[k], found[k]) && Rewired(p, before, vectors, lo + k, found[k], after))
    && forall k | 0 <= k < |entered| - 1 :: EnteredBelow(entered, found, k)
  }

  /** The layer at place k was entered at the nearest node the layer above it offered. */
  ghost predicate EnteredBelow(entered: seq<nat>, found: seq<seq<Item>>, k: nat) {
    k + 1 < |found| && k < |entered| && found[k + 1] != [] && entered[k] == found[k + 1][0].node
  }

  /** What inserting a new record of the given level does to the lists. A greedy walk from the entry point through the
      layers above the level leads to where the top layer of the record is entered; from there down every layer is
      wired; the lists above stay as they were. */
  ghost predicate Wired(p: Params, g: Graph, vec: Vector, level: nat, g': Graph) {
    0 <= g.entryPoint < |g.nodes| ==>
      exists stops: seq<nat>, entered: seq<nat>, found: seq<seq<Item>> ::
        WiredAlong(p, g, vec, level, g', stops, entered, found)
  }

  ghost predicate WiredAlong(p: Params, g: Graph, vec: Vector, level: nat, g': Graph, stops: seq<nat>,
                             entered: seq<nat>, found: seq<seq<Item>>) {
    var top := if level < g.maxLevel then level else g.maxLevel;
    && VectorsOf(g'.nodes) == VectorsOf(g.nodes) + [vec] && top >= 0
    && Stops(g.nodes, p.metric, vec, g.maxLevel, top, stops) && stops[0] == g.entryPoint
    && WiredLayers(p, g.nodes, vec, VectorsOf(g'.nodes), 0, top, entered, found, g'.nodes)
    && entered[top] == stops[|stops| - 1]
    && forall x: nat, l: nat | l > top :: ListOf(g'.nodes, x, l) == ListOf(g.nodes, x, l)
  }

  lemma {:induction false} StopsOld(before: Nodes, n: Nodes, metric: Metric, q: Vector, hi: int, lo: int,
                                    stops: seq<nat>, i: nat)
    requires Stops(n, metric, q, hi, lo, stops) && i < |stops| && stops[0] < |before| && |n| == |before| + 1
    requires forall l: nat :: Fresh(n, |before|, l)
    ensures stops[i] < |before|
  {
    hide Fresh, View.Reachable, Score;
    if i > 0 {
      StopsOld(before, n, metric, q, hi, lo, stops, i - 1);
      var layer := hi - (i - 1);
      assert Stop(n, metric, q, layer, stops[i - 1], stops[i]);
      FreshUnreached(View(n, metric, q, layer), |before|, stops[i - 1], stops[i]);
    }
  }

  lemma StopBefore(p: Params, before: Nodes, n: Nodes, q: Vector, layer: int, from: nat, to: nat)
    requires Stop(n, p.metric, q, layer, from, to) && from < |before| && to < |before|
    requires Shaped(before) && Shaped(n) && forall l: nat :: SameLayer(before, n, l)
    ensures Stop(before, p.metric, q, layer, from, to)
  {
    assert SameLayer(before, n, layer);
    SameReach(p, before, n, q, layer, from, to);
    assert ListOf(n, to, layer) == ListOf(before, to, layer);
    hide View.Reachable, Score, ListOf, Shaped;
  }

  /** A descent beside a new, unlinked node is a walk of the graph without it. */
  lemma DescentBefore(p: Params, before: Nodes, n: Nodes, q: Vector, from: nat, hi: int, lo: int, to: nat)
      returns (stops: seq<nat>)
    requires Descent(p, n, q, from, hi, lo, to) && -1 <= lo <= hi && from < |before|
    requires Shaped(before) && Shaped(n) && (forall l: nat :: Fresh(n, |before|, l) && SameLayer(before, n, l))
    ensures Stops(before, p.metric, q, hi, lo, stops) && stops[0] == from && stops[hi - lo] == to
  {
    hide Stop, Fresh, SameLayer, Shaped, Descent;
    assert SameLayer(before, n, 0);
    OneMoreNode(before, n);
    stops := DescentStops(p, n, q, from, hi, lo, to);
    forall i | 0 <= i < |stops| ensures stops[i] < |before| {
      StopsOld(before, n, p.metric, q, hi, lo, stops, i);
    }
    forall i | 0 <= i < hi - lo ensures Stop(before, p.metric, q, hi - i, stops[i], stops[i + 1]) {
      StopBefore(p, before, n, q, hi - i, stops[i], stops[i + 1]);
    }
  }

  lemma OneMoreNode(before: Nodes, n: Nodes)
    requires SameLayer(before, n, 0)
    ensures |n| == |before| + 1
  {
  }

  /** The layers hi, ..., lo of an insertion, said of the graph before it. */
  lemma {:induction false} DownWires(p: Params, before: Nodes, vec: Vector, n0: Nodes, c0: nat, hi: int, lo: nat,
                                     n: Nodes, c: nat)
      returns (entered: seq<nat>, found: seq<seq<Item>>)
    requires LinkedDown(p, |before|, n0, c0, hi, lo, n, c) && p.efConstruction >= 1 && lo <= hi + 1
    requires Linked(before, p) && Linked(n0, p) && c0 < |before| < |n0| && n0[|before|].vector == vec
    requires hi <= n0[|before|].topLayer && hi <= n0[c0].topLayer
    requires forall l: nat :: Fresh(n0, |before|, l) && SameLayer(before, n0, l)
    ensures Linked(n, p) && SameSkeleton(n0, n) && VectorsOf(n) == VectorsOf(n0) && c < |before|
    ensures WiredLayers(p, before, vec, VectorsOf(n0), lo, hi, entered, found, n)
    ensures lo <= hi ==> entered[hi - lo] == c0 && found[0] != [] && c == found[0][0].node
    ensures lo > hi ==> c == c0
    ensures forall x: nat, l: nat | l < lo || l > hi :: ListOf(n, x, l) == ListOf(n0, x, l)
    decreases if hi < lo then 0 else hi - lo + 1
  {
    hide Linked, Fresh, SameLayer, LayerLinked, Offered, Rewired, ListOf, SameSkeleton;
    LinkedDownKeeps(p, |before|, n0, c0, hi, lo, n, c);
    if hi < lo {
      return [], [];
    }
    var n1: Nodes, c1: nat :| LinkedDown(p, |before|, n0, c0, hi, lo + 1, n1, c1)
      && LayerLinked(p, |before|, lo, n1, c1, n, c);
    var above, offers := DownWires(p, before, vec, n0, c0, hi, lo + 1, n1, c1);
    LinkedDownKeeps(p, |before|, n0, c0, hi, lo + 1, n1, c1);
    StillSame(before, n0, n1, lo);
    var first := LayerWires(p, before, vec, lo, n1, c1, n, c);
    entered, found := [c1] + above, [first] + offers;
    WiresMore(p, before, vec, VectorsOf(n0), lo, hi, c1, above, first, offers, n1, n);
  }

  lemma StillSame(before: Nodes, n0: Nodes, n1: Nodes, layer: nat)
    requires SameLayer(before, n0, layer) && SameSkeleton(n0, n1) && Fresh(n1, |before|, layer)
    requires forall x: nat :: ListOf(n1, x, layer) == ListOf(n0, x, layer)
    ensures SameLayer(before, n1, layer)
    ensures n1[|before|].vector == n0[|before|].vector && n1[|before|].topLayer == n0[|before|].topLayer
  {
    hide ListOf;
  }

  /** One more layer below. */
  lemma WiresMore(p: Params, before: Nodes, vec: Vector, vectors: seq<Vector>, lo: nat, hi: int, c: nat,
                  above: seq<nat>, first: seq<Item>, offers: seq<seq<Item>>, n1: Nodes, n: Nodes)
    requires WiredLayers(p, before, vec, vectors, lo + 1, hi, above, offers, n1) && lo <= hi
    requires Offered(p, before, vec, lo, c, first) && Rewired(p, before, vectors, lo, first, n)
    requires lo < hi ==> offers[0] != [] && c == offers[0][0].node
    requires forall x: nat, l: nat | l != lo :: ListOf(n, x, l) == ListOf(n1, x, l)
    ensures WiredLayers(p, before, vec, vectors, lo, hi, [c] + above, [first] + offers, n)
  {
    hide Offered, Rewired, ListOf;
    var entered, found := [c] + above, [first] + offers;
    forall k | 0 <= k < |found|
      ensures Offered(p, before, vec, lo + k, entered[k], found[k])
      ensures Rewired(p, before, vectors, lo + k, found[k], n)
    {
      if k > 0 { WiredAbove(p, before, vec, vectors, lo, hi, above, offers, n1, n, k - 1); }
    }
    hide WiredLayers;
    EnteredMore(p, before, vec, vectors, lo, hi, c, above, first, offers, n1);
  }

  /** What holds of a layer above still holds. */
  lemma WiredAbove(p: Params, before: Nodes, vec: Vector, vectors: seq<Vector>, lo: nat, hi: int,
                   above: seq<nat>, offers: seq<seq<Item>>, n1: Nodes, n: Nodes, k: nat)
    requires WiredLayers(p, before, vec, vectors, lo + 1, hi, above, offers, n1) && k < |offers|
    requires forall x: nat, l: nat | l != lo :: ListOf(n, x, l) == ListOf(n1, x, l)
    ensures k < |above| && Offered(p, before, vec, lo + (k + 1), above[k], offers[k])
    ensures Rewired(p, before, vectors, lo + (k + 1), offers[k], n)
  {
    hide Offered, Rewired, ListOf;
    assert lo + 1 + k == lo + (k + 1);
    RewiredMoves(p, before, vectors, lo + (k + 1), offers[k], n1, n);
  }

  lemma EnteredMore(p: Params, before: Nodes, vec: Vector, vectors: seq<Vector>, lo: nat, hi: int, c: nat,
                    above: seq<nat>, first: seq<Item>, offers: seq<seq<Item>>, n1: Nodes)
    requires WiredLayers(p, before, vec, vectors, lo + 1, hi, above, offers, n1) && lo <= hi
    requires lo < hi ==> offers != [] && offers[0] != [] && c == offers[0][0].node
    ensures var entered: seq<nat>, found: seq<seq<Item>> := [c] + above, [first] + offers;
      && |entered| == |found| == hi + 1 - lo
      && forall k | 0 <= k < |entered| - 1 :: EnteredBelow(entered, found, k)
  {
    hide Offered, Rewired;
    var entered: seq<nat>, found: seq<seq<Item>> := [c] + above, [first] + offers;
    forall k | 0 <= k < |entered| - 1 ensures EnteredBelow(entered, found, k) {
      assert found[k + 1] == offers[k];
      if k > 0 { assert EnteredBelow(above, offers, k - 1) && entered[k] == above[k - 1]; }
    }
  }

  lemma RewiredMoves(p: Params, before: Nodes, vectors: seq<Vector>, layer: nat, found: seq<Item>, a: Nodes, b: Nodes)
    requires Rewired(p, before, vectors, layer, found, a) && forall x: nat :: ListOf(b, x, layer) == ListOf(a, x, layer)
    ensures Rewired(p, before, vectors, layer, found, b)
  {
    hide ListOf, Chosen, Extended;
  }

  lemma AppendedSame(before: Nodes, added: Node, layer: nat)
    requires |added.neighbors| == added.topLayer + 1
    requires forall l | 0 <= l < |added.neighbors| :: added.neighbors[l] == []
    ensures SameLayer(before, before + [added], layer)
  {
  }

  /** What an insertion does to the lists of the graph. */
  lemma InsertedWires(p: Params, g: Graph, id: RecordId, vec: Vector, level: nat, g': Graph)
    requires WellFormed(g, p) && Inserted(p, g, id, vec, level, g') && p.efConstruction >= 1
    ensures Wired(p, g, vec, level, g')
  {
    hide Linked, Fresh, Named, Topped, LinkedDown, Descent, LiveNodes, SameSkeleton, SameLayer, Stops, WiredLayers,
      ListOf;
    var added := NewNode(id, vec, level);
    var n0, node := g.nodes + [added], |g.nodes|;
    AppendLinked(p, g.nodes, added);
    EntryInside(g.nodes, g.entryPoint, g.maxLevel);
    if g.entryPoint >= 0 {
      var top := Min(level, g.maxLevel);
      var c0: nat, c1: nat :|
        Descent(p, n0, vec, g.entryPoint, g.maxLevel, level, c0) && LinkedDown(p, node, n0, c0, top, 0, g'.nodes, c1);
      forall l: nat ensures SameLayer(g.nodes, n0, l) { AppendedSame(g.nodes, added, l); }
      DescentKeeps(p, n0, vec, g.entryPoint, g.maxLevel, level, c0);
      DescentStaysOld(p, g.nodes, added, vec, g.entryPoint, g.maxLevel, level, c0);
      LinkShape(p, g.nodes);
      LinkShape(p, n0);
      var stops := InsertStops(p, g.nodes, n0, vec, g.entryPoint, g.maxLevel, level, c0);
      var entered, found := DownWires(p, g.nodes, vec, n0, c0, top, 0, g'.nodes, c1);
      Assembled(p, g, vec, level, g', n0, stops, entered, found, c0);
    }
  }

  lemma InsertStops(p: Params, before: Nodes, n: Nodes, q: Vector, from: nat, hi: int, level: nat, to: nat)
      returns (stops: seq<nat>)
    requires Descent(p, n, q, from, hi, level, to) && hi >= 0 && from < |before|
    requires Shaped(before) && Shaped(n) && (forall l: nat :: Fresh(n, |before|, l) && SameLayer(before, n, l))
    ensures Stops(before, p.metric, q, hi, Min(level, hi), stops) && stops[0] == from
    ensures stops[|stops| - 1] == to
  {
    hide Fresh, SameLayer, Shaped, Stop;
    if level > hi { return [from]; }
    stops := DescentBefore(p, before, n, q, from, hi, level, to);
  }

  lemma Assembled(p: Params, g: Graph, vec: Vector, level: nat, g': Graph, n0: Nodes, stops: seq<nat>,
                  entered: seq<nat>, found: seq<seq<Item>>, c0: nat)
    requires g.maxLevel >= 0 && VectorsOf(n0) == VectorsOf(g'.nodes) && |n0| == |g.nodes| + 1
    requires n0[..|g.nodes|] == g.nodes && n0[|g.nodes|].vector == vec
    requires Stops(g.nodes, p.metric, vec, g.maxLevel, Min(level, g.maxLevel), stops) && stops[0] == g.entryPoint
    requires stops[|stops| - 1] == c0
    requires WiredLayers(p, g.nodes, vec, VectorsOf(n0), 0, Min(level, g.maxLevel), entered, found, g'.nodes)
    requires entered[Min(level, g.maxLevel)] == c0
    requires forall x: nat, l: nat | l > Min(level, g.maxLevel) :: ListOf(g'.nodes, x, l) == ListOf(n0, x, l)
    requires forall l: nat :: SameLayer(g.nodes, n0, l)
    ensures Wired(p, g, vec, level, g')
  {
    hide ListOf, Stop, Offered, Rewired;
    assert VectorsOf(n0) == VectorsOf(g.nodes) + [vec];
    forall x: nat, l: nat | l > Min(level, g.maxLevel) ensures ListOf(g'.nodes, x, l) == ListOf(g.nodes, x, l) {
      assert SameLayer(g.nodes, n0, l);
    }
    assert WiredAlong(p, g, vec, level, g', stops, entered, found);
  }

  /** What an insertion adds besides the lists: one node of the drawn level, which becomes the entry point when it is
      the first or higher than all others. */
  ghost predicate Grows(g: Graph, id: RecordId, vec: Vector, level: nat, g': Graph) {
    && |g'.nodes| == |g.nodes| + 1 && g'.nodes[|g.nodes|].id == id && g'.nodes[|g.nodes|].vector == vec
    && g'.nodes[|g.nodes|].topLayer == level && !g'.nodes[|g.nodes|].deleted
    && (forall x: nat | x < |g.nodes| ::
          g'.nodes[x].id == g.nodes[x].id && g'.nodes[x].vector == g.nodes[x].vector
          && g'.nodes[x].topLayer == g.nodes[x].topLayer && g'.nodes[x].deleted == g.nodes[x].deleted)
    && (g.nodes == [] || level > g.maxLevel ==> g'.entryPoint == |g.nodes| && g'.maxLevel == level)
    && (g.nodes != [] && level <= g.maxLevel ==> g'.entryPoint == g.entryPoint && g'.maxLevel == g.maxLevel)
  }

  lemma InsertedGrows(p: Params, g: Graph, id: RecordId, vec: Vector, level: nat, g': Graph)
    requires WellFormed(g, p) && Inserted(p, g, id, vec, level, g') && p.efConstruction >= 1
    requires id !in g.ids && id != [] && |vec| == p.dimensionality
    ensures Grows(g, id, vec, level, g')
  {
    hide Linked, Named, LinkedDown, Descent, LiveNodes, SameSkeleton, NewNode, Topped;
    InsertedKeeps(p, g, id, vec, level, g');
    AppendedSkeleton(g.nodes, id, vec, level, g'.nodes);
    EntryKnown(g.nodes, g.entryPoint, g.maxLevel);
  }

  lemma AppendedSkeleton(nodes: Nodes, id: RecordId, vec: Vector, level: nat, n: Nodes)
    requires SameSkeleton(nodes + [NewNode(id, vec, level)], n)
    ensures |n| == |nodes| + 1 && n[|nodes|].id == id && n[|nodes|].vector == vec
    ensures n[|nodes|].topLayer == level && !n[|nodes|].deleted
    ensures forall x: nat | x < |nodes| ::
      n[x].id == nodes[x].id && n[x].vector == nodes[x].vector && n[x].topLayer == nodes[x].topLayer
      && n[x].deleted == nodes[x].deleted
  {
    var n0 := nodes + [NewNode(id, vec, level)];
    assert n0[|nodes|] == NewNode(id, vec, level) && forall x: nat | x < |nodes| :: n0[x] == nodes[x];
  }

  lemma EntryKnown(nodes: Nodes, entryPoint: int, maxLevel: int)
    requires Topped(nodes, entryPoint, maxLevel)
    ensures entryPoint < 0 <==> nodes == []
    ensures nodes == [] ==> maxLevel == -1
  {
  }

  /** Only the record of one node differs: every list, level and place is the same. */
  ghost predicate SameRouting(g: Graph, g': Graph) {
    && |g'.nodes| == |g.nodes| && g'.entryPoint == g.entryPoint && g'.maxLevel == g.maxLevel && g'.ids == g.ids
    && forall x: nat | x < |g.nodes| ::
         g'.nodes[x].neighbors == g.nodes[x].neighbors && g'.nodes[x].topLayer == g.nodes[x].topLayer
         && g'.nodes[x].id == g.nodes[x].id
  }

  lemma ReviveRoutes(g: Graph, id: RecordId, vec: Vector)
    requires id in g.ids && g.ids[id] < |g.nodes|
    ensures SameRouting(g, Revive(g, id, vec))
  {
  }

  lemma TombstoneRoutes(g: Graph, id: RecordId)
    requires id in g.ids && g.ids[id] < |g.nodes| && g.liveCount > 0
    ensures SameRouting(g, Tombstone(g, id)) && VectorsOf(Tombstone(g, id).nodes) == VectorsOf(g.nodes)
  {
  }
}
