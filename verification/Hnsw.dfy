/** The HNSW index: best-first layer search, diverse linking, tombstones. */
module Hnsw {
  import opened Ordering
  import opened Vectors
  import opened Errors
  import opened HnswGraph
  import opened HnswSelect
  import opened HnswModel
  import opened HnswSteps
  import opened HnswInsert

  lemma WithoutSnoc(list: seq<nat>, y: nat, x: nat)
    ensures y == x ==> Without(list + [y], x) == Without(list, x)
    ensures y != x ==> Without(list + [y], x) == Without(list, x) + [y]
  {
    if list != [] {
      WithoutSnoc(list[1..], y, x);
      assert (list + [y])[1..] == list[1..] + [y];
    }
  }

  lemma NotBefore(s: seq<nat>, i: nat)
    requires Distinct(s) && i < |s|
    ensures s[i] !in s[..i]
  {
  }

  /** The live records of a graph among the items found on its layer 0. */
  ghost function FoundIn(g: Graph, metric: Metric, q: Vector, found: seq<Item>): map<RecordId, Vector>
    requires forall id | id in g.ids :: g.ids[id] < |g.nodes|
  {
    map id | id in Contents(g) && View(g.nodes, metric, q, 0).ItemOf(g.ids[id]) in found :: Contents(g)[id]
  }

  class HnswIndex {
    const dimensionality: nat
    const metric: Metric
    const m: nat
    const efConstruction: nat
    const seed: nat

    var nodes: Nodes
    var idToInternal: map<RecordId, nat>
    var entryPoint: int
    var maxLevel: int
    var liveCount: nat

    function P(): Params { Params(dimensionality, metric, m, efConstruction, seed) }

    function G(): Graph
      reads this
    {
      Graph(nodes, idToInternal, entryPoint, maxLevel, liveCount)
    }

    ghost predicate Valid()
      reads this
    {
      m >= 2 && efConstruction >= 1 && WellFormed(G(), P())
    }

    /** An empty index; m and ef_construction are clamped to their minimums. */
    constructor (dimensionality: nat, metric: Metric, m: nat, efConstruction: nat, seed: nat)
      ensures Valid() && G() == EMPTY && Contents(G()) == map[]
      ensures P() == Params(dimensionality, metric, if m < 2 then 2 else m,
                            if efConstruction < 1 then 1 else efConstruction, seed)
    {
      this.dimensionality, this.metric, this.seed := dimensionality, metric, seed;
      this.m := if m < 2 then 2 else m;
      this.efConstruction := if efConstruction < 1 then 1 else efConstruction;
      nodes, idToInternal, entryPoint, maxLevel, liveCount := [], map[], -1, -1, 0;
      new;
      assert LiveNodes([]) == {};
    }

    /** Repeatedly hops to the closest neighbour until none improves. */
    method GreedyDescend(q: Vector, entry: nat, layer: nat) returns (current: nat)
      requires View(nodes, metric, q, layer).Closed() && View(nodes, metric, q, layer).On(entry)
      ensures View(nodes, metric, q, layer).Descended(entry, current)
    {
      ghost var v := View(nodes, metric, q, layer);
      current := entry;
      v.ReachSelf({entry}, entry);
      var improved := true;
      while improved
        invariant v.On(current) && v.Reachable({entry}, current) && v.Dist(current) <= v.Dist(entry)
        invariant !improved ==> v.Descended(entry, current)
        decreases v.Dist(current) + INFINITY, improved
      {
        var base := current;
        current, improved := ScanNeighbors(q, base, layer);
        if improved {
          v.ReachStep({entry}, base, current);
        }
      }
    }

    /** One pass over the neighbours of `base`, keeping the closest node so far. */
    method ScanNeighbors(q: Vector, base: nat, layer: nat) returns (current: nat, improved: bool)
      requires View(nodes, metric, q, layer).Closed() && View(nodes, metric, q, layer).On(base)
      ensures var v := View(nodes, metric, q, layer);
        if improved then current in v.Adjacent(base) && v.On(current) && v.Dist(current) < v.Dist(base)
        else current == base && forall e | e in v.Adjacent(base) :: v.Dist(base) <= v.Dist(e)
    {
      var v := View(nodes, metric, q, layer);
      current, improved := base, false;
      var currentDist := v.Dist(base);
      var neighbors := v.Adjacent(base);
      for i := 0 to |neighbors|
        invariant currentDist == v.Dist(current) && forall j | 0 <= j < i :: currentDist <= v.Dist(neighbors[j])
        invariant if improved then current in neighbors && currentDist < v.Dist(base) else current == base
      {
        var d := v.Dist(neighbors[i]);
        if d < currentDist {
          currentDist, current, improved := d, neighbors[i], true;
        }
      }
    }

    /** Empties the result heap, nearest first. */
    method Drain(heap: set<Item>) returns (out: seq<Item>)
      ensures Enumerates(out, heap, ItemLess) && |out| == |heap|
    {
      var result := heap;
      out := [];
      while result != {}
        invariant result <= heap && |out| + |result| == |heap|
        invariant Ascending(out, ItemLess)
        invariant forall x :: x in out <==> x in heap && x !in result
        invariant forall x, y | x in result && y in out :: ItemLess(x, y)
        decreases |result|
      {
        var far := Farthest(result);
        out := [far] + out;
        result := result - {far};
      }
    }

    /** Both heaps hold the entry points; the result is cut down to the `ef` nearest. */
    method SeedHeaps(q: Vector, entryPoints: seq<nat>, ef: nat, layer: nat)
        returns (candidates: set<Item>, result: set<Item>, seen: set<nat>)
      requires ef >= 1
      requires forall x | x in entryPoints :: View(nodes, metric, q, layer).On(x)
      ensures seen == Elements(entryPoints)
      ensures Searching(View(nodes, metric, q, layer), seen, ef, candidates, result, seen, {})
    {
      var v := View(nodes, metric, q, layer);
      candidates, result, seen := {}, {}, {};
      for i := 0 to |entryPoints|
        invariant seen == Elements(entryPoints[..i])
        invariant candidates == result
        invariant forall x | x in seen :: v.ItemOf(x) in result
        invariant forall r | r in result :: r.node in seen && r == v.ItemOf(r.node)
      {
        var d := v.Dist(entryPoints[i]);
        candidates := candidates + {Item(d, entryPoints[i])};
        result := result + {Item(d, entryPoints[i])};
        seen := seen + {entryPoints[i]};
      }
      assert entryPoints[..|entryPoints|] == entryPoints;
      while |result| > ef
        invariant result <= candidates
        invariant forall x | x in seen ::
          v.ItemOf(x) in result || (|result| >= ef && forall r | r in result :: r.dist <= v.Dist(x))
        decreases |result|
      {
        TrimKeeps(v, ef, result, seen);
        result := result - {Farthest(result)};
      }
      forall x | x in seen ensures v.Reachable(seen, x) { v.ReachSelf(seen, x); }
    }

    /** Visits every unseen neighbour of a popped candidate. */
    method Expand(q: Vector, ef: nat, layer: nat, node: nat, cands: set<Item>, res: set<Item>, visited: set<nat>,
                  ghost from: set<nat>)
        returns (candidates: set<Item>, result: set<Item>, seen: set<nat>)
      requires ef >= 1 && View(nodes, metric, q, layer).Closed() && node in visited
      requires Searching(View(nodes, metric, q, layer), from, ef, cands, res, visited, {node})
      ensures Searching(View(nodes, metric, q, layer), from, ef, candidates, result, seen, {})
      ensures visited <= seen && (seen == visited ==> candidates == cands)
    {
      var v := View(nodes, metric, q, layer);
      candidates, result, seen := cands, res, visited;
      var neighbors := v.Adjacent(node);
      hide Found, Measured, Frontier, Covered, Keep;
      for i := 0 to |neighbors|
        invariant Searching(v, from, ef, candidates, result, seen, {node})
        invariant visited <= seen && (seen == visited ==> candidates == cands)
        invariant forall j | 0 <= j < i :: neighbors[j] in seen
      {
        var neighbor := neighbors[i];
        if neighbor in seen {
          continue;
        }
        var d := v.Dist(neighbor);
        if |result| < ef || d < Farthest(result).dist {
          VisitAccepted(v, from, ef, candidates, result, seen, node, neighbor);
          candidates := candidates + {Item(d, neighbor)};
          result := Keep(result, Item(d, neighbor), ef);
        } else {
          VisitRejected(v, from, ef, candidates, result, seen, node, neighbor);
        }
        seen := seen + {neighbor};
      }
      PendingDone(v, from, ef, candidates, result, seen, node);
    }

    /** Best-first exploration of one layer, keeping the `ef` nearest nodes found. */
    method SearchLayer(q: Vector, entryPoints: seq<nat>, ef: nat, layer: nat)
        returns (out: seq<Item>, ghost visited: set<nat>)
      requires ef >= 1 && Distinct(entryPoints) && View(nodes, metric, q, layer).Closed()
      requires forall x | x in entryPoints :: View(nodes, metric, q, layer).On(x)
      ensures View(nodes, metric, q, layer).Answers(Elements(entryPoints), ef, out, visited)
      ensures exists seen: set<nat> :: View(nodes, metric, q, layer).Answers(Elements(entryPoints), ef, out, seen)
    {
      var v := View(nodes, metric, q, layer);
      ghost var from := Elements(entryPoints);
      var candidates, result, seen := SeedHeaps(q, entryPoints, ef, layer);
      ghost var left := candidates;
      while candidates != {}
        invariant Searching(v, from, ef, candidates, result, seen, {})
        invariant left == candidates
        decreases v.Universe() - seen, candidates
      {
        hide Found, Measured, Frontier, Covered, Separated;
        var nearest := Nearest(candidates);
        left := candidates;
        candidates := candidates - {nearest};
        if result != {} && nearest.dist > Farthest(result).dist && |result| >= ef {
          EarlyExit(result, left);
          break;
        }
        PopKeeps(v, from, ef, left, result, seen, nearest);
        ghost var before := seen;
        candidates, result, seen := Expand(q, ef, layer, nearest.node, candidates, result, seen, from);
        FoundWithin(v, from, seen);
        if before != seen { Progress(v.Universe(), before, seen); }
        left := candidates;
      }
      hide Separated, Found, Measured, Frontier, Covered;
      out := Drain(result);
      visited := seen;
      ExitAnswers(v, from, ef, left, result, seen, out);
    }

    // -------------------------------------------------------------- construction

    /** A diverse subset of at most `limit` candidates, nearest first. */
    method SelectNeighborsHeuristic(candidates: seq<Item>, limit: nat) returns (selected: seq<nat>)
      ensures selected == Select(metric, VectorsOf(nodes), candidates, limit)
    {
      ItemOrder();
      var vectors := VectorsOf(nodes);
      var sorted := Sort(candidates, ItemLess);
      selected := [];
      for i := 0 to |sorted|
        invariant Pass(metric, vectors, sorted[i..], limit, selected) == Select(metric, vectors, candidates, limit)
      {
        assert sorted[i..][0] == sorted[i] && sorted[i..][1..] == sorted[i + 1..];
        if |selected| >= limit {
          return;
        }
        var keep := true;
        var j := 0;
        while j < |selected| && keep
          invariant 0 <= j <= |selected|
          invariant keep ==> Diverse(metric, vectors, sorted[i], selected[..j])
          invariant !keep ==> !Diverse(metric, vectors, sorted[i], selected)
        {
          if NodeDist(metric, vectors, sorted[i].node, selected[j]) <= sorted[i].dist {
            keep := false;
          }
          assert selected[..j + 1] == selected[..j] + [selected[j]];
          j := j + 1;
        }
        assert keep ==> selected[..j] == selected;
        if keep {
          selected := selected + [sorted[i].node];
        }
      }
    }

    /** Adds the reciprocal edge other -> node, pruning the list when it overflows the layer limit. */
    method AddReciprocal(other: nat, node: nat, layer: nat)
      requires Shaped(nodes) && other < |nodes| && layer <= nodes[other].topLayer
      modifies this`nodes
      ensures nodes == old(nodes)[other := WithList(old(nodes)[other], layer,
                Reciprocal(P(), VectorsOf(old(nodes)), other, ListOf(old(nodes), other, layer), node, layer))]
    {
      var vectors := VectorsOf(nodes);
      ghost var owner := nodes[other];
      assert ListOf(nodes, other, layer) == owner.neighbors[layer];
      var otherList := nodes[other].neighbors[layer] + [node];
      nodes := nodes[other := WithList(nodes[other], layer, otherList)];
      assert VectorsOf(nodes) == vectors;
      var limit := Limit(P(), layer);
      if |otherList| > limit {
        var otherCandidates: seq<Item> := [];
        for i := 0 to |otherList|
          invariant otherCandidates == Rescored(metric, vectors, other, otherList[..i])
        {
          otherCandidates := otherCandidates + [Item(NodeDist(metric, vectors, other, otherList[i]), otherList[i])];
        }
        assert otherList[..|otherList|] == otherList;
        var pruned := SelectNeighborsHeuristic(otherCandidates, limit);
        nodes := nodes[other := WithList(nodes[other], layer, pruned)];
        assert nodes[other] == WithList(owner, layer, pruned);
      }
    }

    /** Links `node` to a diverse subset of `candidates`, with reciprocal edges. */
    method ConnectNode(node: nat, candidates: seq<Item>, layer: nat)
      requires Shaped(nodes) && node < |nodes| && layer <= nodes[node].topLayer
      requires forall c | c in candidates :: c.node < |nodes| && layer <= nodes[c.node].topLayer
      requires forall i, j | 0 <= i < j < |candidates| :: candidates[i].node != candidates[j].node
      modifies this`nodes
      ensures nodes == Connect(P(), old(nodes), node, candidates, layer)
    {
      hide Link, Without, Select, Shaped, Distinct;
      var limit := Limit(P(), layer);
      var selected := SelectNeighborsHeuristic(candidates, limit);
      SelectWithin(metric, VectorsOf(nodes), candidates, limit);
      ghost var n0 := nodes;
      LinkNone(n0, node, selected[..0], layer);
      forall s | s in selected ensures s < |n0| && layer <= n0[s].topLayer {
        var c :| c in candidates && c.node == s;
      }
      for i := 0 to |selected|
        invariant nodes == Link(P(), n0, node, Without(selected[..i], node), layer)
      {
        var other := selected[i];
        ghost var others := Without(selected[..i], node);
        WithoutSnoc(selected[..i], other, node);
        WithoutFacts(selected[..i], node);
        assert selected[..i + 1] == selected[..i] + [other];
        if other == node {
          continue;
        }
        assert other in selected;
        NotBefore(selected, i);
        LinkTo(node, other, layer, others, n0);
      }
      assert selected[..|selected|] == selected;
    }

    /** One edge pair: `other` joins the list of `node`, and `node` that of `other`. */
    method LinkTo(node: nat, other: nat, layer: nat, ghost others: seq<nat>, ghost n0: Nodes)
      requires Shaped(n0) && node < |n0| && other < |n0| && other != node && other !in others && node !in others
      requires layer <= n0[node].topLayer && layer <= n0[other].topLayer
      requires nodes == Link(P(), n0, node, others, layer)
      modifies this`nodes
      ensures nodes == Link(P(), n0, node, others + [other], layer)
    {
      LinkSkeleton(P(), n0, node, others, layer);
      LinkOneMore(P(), n0, node, others, other, layer);
      assert |nodes| == |n0| && |nodes[node].neighbors| == |n0[node].neighbors|;
      ghost var n := nodes;
      hide Link;
      nodes := nodes[node := WithList(nodes[node], layer, ListOf(nodes, node, layer) + [other])];
      assert VectorsOf(nodes) == VectorsOf(n);
      assert nodes[other] == n[other] && ListOf(nodes, other, layer) == ListOf(n, other, layer);
      AddReciprocal(other, node, layer);
    }

    lemma LinkNone(n: Nodes, node: nat, none: seq<nat>, layer: nat)
      requires Shaped(n) && node < |n| && layer <= n[node].topLayer && none == []
      ensures Link(P(), n, node, Without(none, node), layer) == n
    {
      var l := Link(P(), n, node, [], layer);
      assert ListOf(n, node, layer) + [] == n[node].neighbors[layer];
      assert n[node].neighbors[layer := n[node].neighbors[layer]] == n[node].neighbors;
      assert forall i | 0 <= i < |n| :: l[i] == n[i];
    }

    /** One greedy descent, starting at a node of the layer. */
    method Hop(q: Vector, from: nat, layer: nat) returns (to: nat)
      requires Linked(nodes, P()) && from < |nodes| && layer <= nodes[from].topLayer
      ensures DescendedAbove(P(), nodes, q, layer - 1, from, to)
      ensures to < |nodes| && layer <= nodes[to].topLayer
    {
      LinkedClosed(nodes, P(), q, layer);
      OnLayer(q, from, layer);
      hide Linked;
      to := GreedyDescend(q, from, layer);
    }

    /** Greedy descents through the layers above `level`. */
    method DescendTo(q: Vector, level: nat) returns (current: nat)
      requires Linked(nodes, P()) && 0 <= entryPoint < |nodes| && nodes[entryPoint].topLayer == maxLevel
      ensures Descent(P(), nodes, q, entryPoint, maxLevel, level, current)
      ensures current < |nodes| && Min(level, maxLevel) <= nodes[current].topLayer
    {
      hide Linked, DescendedAbove;
      current := entryPoint;
      var layer := maxLevel;
      while layer > level
        invariant level <= layer || layer == maxLevel
        invariant layer <= maxLevel
        invariant current < |nodes| && Min(layer, maxLevel) <= nodes[current].topLayer
        invariant Descent(P(), nodes, q, entryPoint, maxLevel, layer, current)
      {
        ghost var mid := current;
        current := Hop(q, current, layer);
        layer := layer - 1;
        assert DescendedAbove(P(), nodes, q, layer, mid, current);
      }
    }

    lemma OnLayer(q: Vector, x: nat, layer: nat)
      requires Linked(nodes, P()) && x < |nodes| && layer <= nodes[x].topLayer
      ensures View(nodes, metric, q, layer).On(x)
    {
    }

    /** Explores and connects the new node on the layers `top`, ..., 0. */
    method LinkLayers(node: nat, entry: nat, top: nat) returns (current: nat)
      requires Linked(nodes, P()) && efConstruction >= 1
      requires node < |nodes| && entry < |nodes| && entry != node
      requires top <= nodes[node].topLayer && top <= nodes[entry].topLayer
      requires forall l: nat | l <= top :: Fresh(nodes, node, l)
      modifies this`nodes
      ensures LinkedDown(P(), node, old(nodes), entry, top, 0, nodes, current)
    {
      hide Linked, Fresh, LayerLinked;
      ghost var n0 := nodes;
      current := entry;
      var layer: int := top;
      while layer >= 0
        invariant -1 <= layer <= top
        invariant LinkedDown(P(), node, n0, entry, top, layer + 1, nodes, current)
        decreases layer
      {
        LinkedDownKeeps(P(), node, n0, entry, top, layer + 1, nodes, current);
        current := LinkLayer(node, current, layer, entry, top, n0);
        layer := layer - 1;
      }
    }

    method LinkLayer(node: nat, cur: nat, layer: nat, ghost entry: nat, ghost top: nat, ghost n0: Nodes)
        returns (current: nat)
      requires Linked(nodes, P()) && efConstruction >= 1 && layer <= top
      requires node < |nodes| && cur < |nodes| && cur != node
      requires layer <= nodes[node].topLayer && layer <= nodes[cur].topLayer && Fresh(nodes, node, layer)
      requires LinkedDown(P(), node, n0, entry, top, layer + 1, nodes, cur)
      modifies this`nodes
      ensures LinkedDown(P(), node, n0, entry, top, layer, nodes, current)
    {
      var q := nodes[node].vector;
      LinkedClosed(nodes, P(), q, layer);
      ghost var n := nodes;
      OnLayer(q, cur, layer);
      var found, visited := SearchLayer(q, [cur], efConstruction, layer);
      assert Elements([cur]) == {cur};
      FoundGood(View(nodes, metric, q, layer), node, cur, efConstruction, found, visited);
      ConnectNode(node, found, layer);
      current := cur;
      if |found| > 0 {
        current := found[0].node;
      }
      assert LayerLinked(P(), node, layer, n, cur, nodes, current);
    }

    /** Adds, replaces or revives a record; `level` is the layer the generator drew for a new node. */
    method Add(id: RecordId, vec: Vector, level: nat) returns (s: Status)
      requires Valid()
      modifies this
      ensures Valid()
      ensures s == if id == [] then Error(InvalidIdentifier)
                   else if |vec| != dimensionality then Error(DimensionMismatch) else Ok
      ensures s.Error? ==> G() == old(G())
      ensures s.Ok? ==> AddStep(P(), old(G()), id, vec, level, G())
      ensures s.Ok? ==> Contents(G()) == old(Contents(G()))[id := vec]
      ensures s.Ok? && id !in old(idToInternal) ==>
        Grows(old(G()), id, vec, level, G()) && Wired(P(), old(G()), vec, level, G())
      ensures s.Ok? && id in old(idToInternal) ==> SameRouting(old(G()), G())
    {
      if id == [] {
        return Error(InvalidIdentifier);
      }
      if |vec| != dimensionality {
        return Error(DimensionMismatch);
      }
      ghost var g := G();
      hide Inserted, Wired, Grows, SameRouting, Linked, Topped, LiveNodes, Revive, Contents;
      if id in idToInternal {
        Replace(id, vec);
        ReviveRoutes(g, id, vec);
      } else {
        Append(id, vec, level);
        InsertedGrows(P(), g, id, vec, level, G());
        InsertedWires(P(), g, id, vec, level, G());
      }
      StepAddKeeps(P(), g, id, vec, level, G());
      return Ok;
    }

    method Replace(id: RecordId, vec: Vector)
      requires Named(nodes, idToInternal, P()) && id in idToInternal
      modifies this`nodes, this`liveCount
      ensures G() == Revive(old(G()), id, vec)
    {
      var x := idToInternal[id];
      var wasDeleted := nodes[x].deleted;
      nodes := nodes[x := nodes[x].(vector := vec)];
      if wasDeleted {
        nodes := nodes[x := nodes[x].(deleted := false)];
        liveCount := liveCount + 1;
      }
      assert nodes == old(nodes)[x := old(nodes)[x].(vector := vec, deleted := false)];
    }

    method Append(id: RecordId, vec: Vector, level: nat)
      requires Valid() && id !in idToInternal
      modifies this
      ensures Inserted(P(), old(G()), id, vec, level, G())
    {
      hide Linked, Named, Descent, LinkedDown, Topped, LiveNodes;
      var node := |nodes|;
      var added := NewNode(id, vec, level);
      ghost var old0 := nodes;
      EntryInside(nodes, entryPoint, maxLevel);
      nodes := nodes + [added];
      idToInternal := idToInternal[id := node];
      liveCount := liveCount + 1;
      if entryPoint < 0 {
        entryPoint, maxLevel := node, level;
        return;
      }
      ghost var c0, c1 := LinkNew(node, added, level, old0);
    }

    /** Descends to the node's top layer and links it from there down. */
    method LinkNew(node: nat, added: Node, level: nat, ghost before: Nodes) returns (ghost c0: nat, ghost c1: nat)
      requires efConstruction >= 1 && node == |before| && nodes == before + [added] && Linked(before, P())
      requires added == NewNode(added.id, added.vector, level)
      requires 0 <= entryPoint < node && Topped(before, entryPoint, maxLevel)
      modifies this`nodes, this`entryPoint, this`maxLevel
      ensures entryPoint == if level > old(maxLevel) then node else old(entryPoint)
      ensures maxLevel == if level > old(maxLevel) then level else old(maxLevel)
      ensures Descent(P(), old(nodes), added.vector, old(entryPoint), old(maxLevel), level, c0)
      ensures LinkedDown(P(), node, old(nodes), c0, Min(level, old(maxLevel)), 0, nodes, c1)
    {
      hide Linked, Fresh, LinkedDown, Topped, Descent;
      NewStart(before, added);
      var current := DescendTo(added.vector, level);
      c0 := current;
      DescentStaysOld(P(), before, added, added.vector, entryPoint, maxLevel, level, current);
      c1 := LinkLayers(node, current, Min(level, maxLevel));
      if level > maxLevel {
        entryPoint, maxLevel := node, level;
      }
    }

    /** The appended node is legal and unlinked, and the descent starts below it at a node of the highest level. */
    lemma NewStart(before: Nodes, added: Node)
      requires Linked(before, P()) && added == NewNode(added.id, added.vector, added.topLayer)
      requires nodes == before + [added] && Topped(before, entryPoint, maxLevel) && 0 <= entryPoint < |before|
      ensures Linked(nodes, P()) && forall l: nat :: Fresh(nodes, |before|, l)
      ensures nodes[entryPoint].topLayer == maxLevel && |added.neighbors| == added.topLayer + 1
      ensures forall l | 0 <= l < |added.neighbors| :: added.neighbors[l] == []
    {
      AppendLinked(P(), before, added);
      hide Linked, Fresh;
    }

    lemma Unchanged()
      ensures SameRouting(G(), G())
    {
    }

    /** Tombstones a live record. */
    method Remove(id: RecordId) returns (s: Status)
      requires Valid()
      modifies this
      ensures Valid()
      ensures s == if id in old(Contents(G())) then Ok else Error(NotFound)
      ensures s.Error? ==> G() == old(G())
      ensures s.Ok? ==> old(liveCount) > 0 && G() == Tombstone(old(G()), id)
      ensures s.Ok? ==> VectorsOf(nodes) == VectorsOf(old(nodes))
      ensures SameRouting(old(G()), G())
      ensures Contents(G()) == old(Contents(G())) - {id}
    {
      hide SameRouting, Linked, Topped;
      if id !in idToInternal {
        Unchanged();
        return Error(NotFound);
      }
      var x := idToInternal[id];
      if nodes[x].deleted {
        Unchanged();
        return Error(NotFound);
      }
      TombstoneKeeps(P(), G(), id);
      TombstoneRoutes(G(), id);
      nodes := nodes[x := nodes[x].(deleted := true)];
      liveCount := liveCount - 1;
      return Ok;
    }

    /** The live records that layer 0 reaches from `start`. */
    ghost function Reached(q: Vector, start: nat): map<RecordId, Vector>
      requires Valid()
      reads this
    {
      map id | id in Contents(G()) && View(nodes, metric, q, 0).Reachable({start}, idToInternal[id]) ::
        Contents(G())[id]
    }

    /** The candidates of the live nodes among the items found. */
    method Collect(q: Vector, found: seq<Item>) returns (out: seq<Candidate>)
      requires Valid()
      requires forall r | r in found :: r.node < |nodes| && r == View(nodes, metric, q, 0).ItemOf(r.node)
      requires forall i, j | 0 <= i < j < |found| :: found[i].node != found[j].node
      ensures Distinct(out) && forall i, j | 0 <= i < j < |out| :: out[i].id != out[j].id
      ensures forall c | c in out :: c.id in Contents(G()) && c.distance == Score(metric, q, Contents(G())[c.id])
      ensures forall id | id in Contents(G()) ::
        (exists c :: c in out && c.id == id) <==> View(nodes, metric, q, 0).ItemOf(idToInternal[id]) in found
    {
      hide WellFormed, Contents;
      out := [];
      for i := 0 to |found|
        invariant Collected(found[..i], out)
      {
        var node := nodes[found[i].node];
        assert found[i] in found && found[..i + 1] == found[..i] + [found[i]];
        if node.deleted {
          CollectedSkip(found[..i], found[i], out);
          continue;
        }
        var c := Candidate(node.id, found[i].dist);
        FirstMet(found, i);
        CollectedAdd(found[..i], found[i], out, c);
        out := out + [c];
      }
      assert found[..|found|] == found;
      CollectedAll(q, found, out);
    }

    /** Candidates and the live nodes among the items are one to one. */
    ghost predicate Collected(items: seq<Item>, out: seq<Candidate>)
      reads this
    {
      && (forall r | r in items :: r.node < |nodes|)
      && (forall a, b | 0 <= a < b < |out| :: out[a].id != out[b].id)
      && (forall c | c in out :: exists r | r in items ::
            !nodes[r.node].deleted && c == Candidate(nodes[r.node].id, r.dist))
      && (forall r | r in items && !nodes[r.node].deleted :: Candidate(nodes[r.node].id, r.dist) in out)
    }

    lemma FirstMet(found: seq<Item>, i: nat)
      requires i < |found| && forall a, b | 0 <= a < b < |found| :: found[a].node != found[b].node
      ensures forall r | r in found[..i] :: r.node != found[i].node
    {
    }

    lemma CollectedSkip(items: seq<Item>, item: Item, out: seq<Candidate>)
      requires Collected(items, out) && item.node < |nodes| && nodes[item.node].deleted
      ensures Collected(items + [item], out)
    {
      forall c | c in out
        ensures exists r | r in items + [item] ::
          !nodes[r.node].deleted && c == Candidate(nodes[r.node].id, r.dist)
      {
        var r :| r in items && !nodes[r.node].deleted && c == Candidate(nodes[r.node].id, r.dist);
        assert r in items + [item];
      }
    }

    lemma CollectedAdd(items: seq<Item>, item: Item, out: seq<Candidate>, c: Candidate)
      requires Valid() && Collected(items, out) && item.node < |nodes| && !nodes[item.node].deleted
      requires c == Candidate(nodes[item.node].id, item.dist) && forall r | r in items :: r.node != item.node
      ensures Collected(items + [item], out + [c])
    {
      hide Linked, Topped;
      var more, grown := items + [item], out + [c];
      forall a | 0 <= a < |out| ensures out[a].id != c.id {
        assert out[a] in out;
        var r :| r in items && !nodes[r.node].deleted && out[a] == Candidate(nodes[r.node].id, r.dist);
        assert idToInternal[nodes[r.node].id] == r.node && idToInternal[c.id] == item.node;
      }
      forall d | d in grown
        ensures exists r | r in more :: !nodes[r.node].deleted && d == Candidate(nodes[r.node].id, r.dist)
      {
        if d in out {
          var r :| r in items && !nodes[r.node].deleted && d == Candidate(nodes[r.node].id, r.dist);
          assert r in more;
        } else {
          assert item in more;
        }
      }
    }

    /** What was collected, said of the stored records. */
    lemma CollectedAll(q: Vector, found: seq<Item>, out: seq<Candidate>)
      requires Valid() && Collected(found, out)
      requires forall r | r in found :: r == View(nodes, metric, q, 0).ItemOf(r.node)
      ensures Distinct(out)
      ensures forall c | c in out :: c.id in Contents(G()) && c.distance == Score(metric, q, Contents(G())[c.id])
      ensures forall id | id in Contents(G()) ::
        (exists c :: c in out && c.id == id) <==> View(nodes, metric, q, 0).ItemOf(idToInternal[id]) in found
    {
      hide Linked, Topped;
      forall c | c in out ensures c.id in Contents(G()) && c.distance == Score(metric, q, Contents(G())[c.id]) {
        var r :| r in found && !nodes[r.node].deleted && c == Candidate(nodes[r.node].id, r.dist);
        assert idToInternal[c.id] == r.node;
      }
      forall id | id in Contents(G())
        ensures (exists c :: c in out && c.id == id) <==> View(nodes, metric, q, 0).ItemOf(idToInternal[id]) in found
      {
        CollectedOne(q, found, out, id);
      }
    }

    lemma CollectedOne(q: Vector, found: seq<Item>, out: seq<Candidate>, id: RecordId)
      requires Valid() && Collected(found, out) && id in Contents(G())
      requires forall r | r in found :: r == View(nodes, metric, q, 0).ItemOf(r.node)
      ensures (exists c :: c in out && c.id == id) <==> View(nodes, metric, q, 0).ItemOf(idToInternal[id]) in found
    {
      hide Linked, Topped;
      var item := View(nodes, metric, q, 0).ItemOf(idToInternal[id]);
      if item in found {
        assert Candidate(nodes[item.node].id, item.dist) in out;
      }
      if c :| c in out && c.id == id {
        var r :| r in found && !nodes[r.node].deleted && c == Candidate(nodes[r.node].id, r.dist);
        assert idToInternal[c.id] == r.node;
      }
    }

    /** The live records among the items found. */
    ghost function FoundRecords(q: Vector, found: seq<Item>): map<RecordId, Vector>
      requires Valid()
      reads this
    {
      FoundIn(G(), metric, q, found)
    }

    lemma NothingLive(q: Vector, k: nat, records: map<RecordId, Vector>)
      requires Valid() && (entryPoint < 0 || k == 0 || liveCount == 0)
      requires forall id | id in records :: id in Contents(G())
      ensures TopK(records, metric, q, k) == []
    {
      if k > 0 {
        forall id | id in Contents(G()) ensures idToInternal[id] in LiveNodes(nodes) {
        }
        assert LiveNodes(nodes) == {};
        assert records == map[];
        assert AllScored(map[], metric, q) == {};
      }
    }

    /** What is collected is every live record found, scored. */
    lemma CollectedIsFound(q: Vector, found: seq<Item>, collected: seq<Candidate>)
      requires Valid()
      requires forall c | c in collected :: c.id in Contents(G()) && c.distance == Score(metric, q, Contents(G())[c.id])
      requires forall id | id in Contents(G()) ::
        (exists c :: c in collected && c.id == id) <==> View(nodes, metric, q, 0).ItemOf(idToInternal[id]) in found
      ensures forall c :: c in collected <==> c in AllScored(FoundRecords(q, found), metric, q)
    {
      var contents, records := Contents(G()), FoundRecords(q, found);
      hide WellFormed, View.ItemOf;
      forall c ensures c in collected <==> c in AllScored(records, metric, q) {
        if c in collected {
          assert c.id in records && c == Candidate(c.id, Score(metric, q, records[c.id]));
        }
        if c in AllScored(records, metric, q) {
          var d :| d in collected && d.id == c.id;
          assert d == c;
        }
      }
    }

    /** A search that was not full found exactly the live nodes layer 0 reaches. */
    lemma FoundIsReached(q: Vector, start: nat, found: seq<Item>, visited: set<nat>, ef: nat)
      requires Valid()
      requires View(nodes, metric, q, 0).Answers({start}, ef, found, visited) && |found| < ef
      ensures FoundRecords(q, found) == Reached(q, start)
    {
      assert forall id | id in Contents(G()) :: id in idToInternal;
      assert forall id | id in idToInternal :: idToInternal[id] < |nodes|;
      NotFullIsAll(View(nodes, metric, q, 0), {start}, found, visited, ef);
      hide WellFormed, Contents, Score, View.Answers, View.Reachable, View.ItemOf;
    }

    /** A full search finds every live record that layer 0 reaches from the start through nodes nearer than the
        farthest node it kept; a search that was not full finds every one that layer 0 reaches. */
    lemma NearIsFound(q: Vector, start: nat, ef: nat, found: seq<Item>, visited: set<nat>, path: seq<nat>)
      requires Valid() && ef >= 1 && View(nodes, metric, q, 0).Answers({start}, ef, found, visited)
      requires View(nodes, metric, q, 0).Path(path) && path[0] == start
      requires path[|path| - 1] < |nodes| && !nodes[path[|path| - 1]].deleted
      requires |found| == ef ==>
        forall i | 0 <= i < |path| :: View(nodes, metric, q, 0).Dist(path[i]) < found[ef - 1].dist
      ensures nodes[path[|path| - 1]].id in FoundRecords(q, found)
    {
      var v, x := View(nodes, metric, q, 0), path[|path| - 1];
      hide Linked, Topped, View.Path;
      if |found| == ef {
        SublevelComplete(v, {start}, ef, found, visited, path);
      } else {
        assert v.Reachable({start}, x);
      }
      assert idToInternal[nodes[x].id] == x;
    }

    /** Returns the best k of the live nodes that the layer-0 search finds with breadth `ef`, the largest of efSearch, k
        and 1, nearest first. */
    method Search(q: Vector, k: nat, efSearch: nat)
        returns (out: seq<Candidate>, ghost ef: nat, ghost start: nat, ghost found: seq<Item>, ghost visited: set<nat>)
      requires Valid()
      ensures ef >= efSearch && ef >= k && ef >= 1 && (ef == efSearch || ef == k || ef == 1)
      ensures k > 0 && liveCount > 0 ==>
        && Descent(P(), nodes, q, entryPoint, maxLevel, 0, start)
        && View(nodes, metric, q, 0).Answers({start}, ef, found, visited)
        && (|found| < efSearch || |found| < k ==> FoundRecords(q, found) == Reached(q, start))
      ensures NearestK(out, FoundRecords(q, found), metric, q, k)
      ensures out == TopK(FoundRecords(q, found), metric, q, k)
      ensures |nodes| < efSearch || |nodes| < k ==> out == TopK(Reached(q, start), metric, q, k)
    {
      hide WellFormed, Contents, Descent, View.Answers, View.Closed, FoundRecords, Reached, CandidateLess, Sort, TopK,
        NearestK;
      CandidateOrder();
      out, start, found, visited := [], 0, [], {};
      ef := Breadth(efSearch, k);
      TopKNearest(FoundRecords(q, found), metric, q, k);
      if entryPoint < 0 || k == 0 || liveCount == 0 {
        NothingFound(q, k, found, start);
        return;
      }
      SearchReady(q);
      var current := DescendTo(q, 0);
      start := current;
      OnLayer(q, current, 0);
      var breadth := Breadth(efSearch, k);
      var items, seen := SearchLayer(q, [current], breadth, 0);
      found, visited := items, seen;
      TopKNearest(FoundRecords(q, found), metric, q, k);
      assert Elements([current]) == {current};
      AnswerItems(q, current, ef, found, visited);
      var collected := Collect(q, items);
      RankFacts(collected, k);
      out := Prefix(Sort(collected, CandidateLess), k);
      CollectedIsFound(q, found, collected);
      SortedIsTopK(collected, FoundRecords(q, found), metric, q, k);
      if |found| < ef {
        FoundIsReached(q, start, found, visited, ef);
      }
    }

    lemma NothingFound(q: Vector, k: nat, none: seq<Item>, start: nat)
      requires Valid() && (entryPoint < 0 || k == 0 || liveCount == 0)
      ensures TopK(FoundRecords(q, none), metric, q, k) == [] && TopK(Reached(q, start), metric, q, k) == []
      ensures k == 0 || liveCount == 0
    {
      if entryPoint < 0 { assert LiveNodes(nodes) == {}; }
      NothingLive(q, k, FoundRecords(q, none));
      NothingLive(q, k, Reached(q, start));
    }

    /** A search with something live can start: the entry point is a node of the highest level. */
    lemma SearchReady(q: Vector)
      requires Valid() && entryPoint >= 0
      ensures Linked(nodes, P()) && entryPoint < |nodes| && nodes[entryPoint].topLayer == maxLevel
      ensures View(nodes, metric, q, 0).Closed()
    {
      LinkedClosed(nodes, P(), q, 0);
      hide Linked, Named;
    }

    /** What a layer search returns: distinct nodes, with their distances, no more than there are. */
    lemma AnswerItems(q: Vector, start: nat, ef: nat, found: seq<Item>, visited: set<nat>)
      requires View(nodes, metric, q, 0).Answers({start}, ef, found, visited)
      ensures forall r | r in found :: r.node < |nodes| && r == View(nodes, metric, q, 0).ItemOf(r.node)
      ensures forall i, j | 0 <= i < j < |found| :: found[i].node != found[j].node
      ensures |found| <= |nodes|
    {
      DistinctNodes(View(nodes, metric, q, 0), {start}, ef, found, visited);
    }
  }

  /** The search breadth: the largest of efSearch, k and 1. */
  function Breadth(efSearch: nat, k: nat): (b: nat)
    ensures b >= efSearch && b >= k && b >= 1 && (b == efSearch || b == k || b == 1)
  {
    var ef := if efSearch < 1 then 1 else efSearch;
    if ef < k then k else ef
  }
}
