/** Graphs so small that no list of layer 0 can overflow: their layer 0 is connected, so a broad search is exact. */
module HnswSmall {
  import opened Ordering
  import opened Vectors
  import opened HnswGraph
  import opened HnswSelect
  import opened HnswModel
  import opened HnswSteps
  import opened HnswInsert
  import opened Hnsw
  import opened Indexing

  /** A node can have every other node as a neighbour on layer 0. */
  predicate Roomy(nodes: Nodes, p: Params) { |nodes| <= Limit(p, 0) + 1 }

  /** Edges of layer 0 go both ways. */
  ghost predicate Mutual(nodes: Nodes) {
    forall x: nat, y: nat :: x in ListOf(nodes, y, 0) <==> y in ListOf(nodes, x, 0)
  }

  /** Every node is reached from every other one. */
  ghost predicate Joined(v: View) {
    forall x: nat, y: nat | x < |v.nodes| && y < |v.nodes| :: v.Reachable({x}, y)
  }

  function Base(p: Params, nodes: Nodes, q: Vector): View { View(nodes, p.metric, q, 0) }

  /** The lists of `b` on layer 0 contain those of `a`. */
  ghost predicate Extends(a: Nodes, b: Nodes) {
    forall x: nat, e: nat | e in ListOf(a, x, 0) :: e in ListOf(b, x, 0)
  }

  lemma AdjacentIsList(p: Params, nodes: Nodes, q: Vector, x: nat)
    requires Shaped(nodes)
    ensures Base(p, nodes, q).Adjacent(x) == ListOf(nodes, x, 0)
  {
  }

  /** What is reached stays reached when lists only grow. */
  lemma StaysReached(p: Params, a: Nodes, b: Nodes, q: Vector, x: nat, y: nat)
    requires Shaped(a) && Shaped(b) && Extends(a, b) && Base(p, a, q).Reachable({x}, y)
    ensures Base(p, b, q).Reachable({x}, y)
  {
    var v, w := Base(p, a, q), Base(p, b, q);
    var path :| v.Path(path) && path[0] in {x} && path[|path| - 1] == y;
    forall i | 0 <= i < |path| - 1 ensures path[i + 1] in w.Adjacent(path[i]) {
      assert path[i + 1] in v.Adjacent(path[i]);
      AdjacentIsList(p, a, q, path[i]);
      AdjacentIsList(p, b, q, path[i]);
    }
    assert w.Path(path);
  }

  lemma {:induction false} Onward(v: View, x: nat, path: seq<nat>)
    requires v.Path(path) && v.Reachable({x}, path[0])
    ensures v.Reachable({x}, path[|path| - 1])
    decreases |path|
  {
    var n := |path|;
    if n > 1 {
      var init := path[..n - 1];
      assert v.Path(init);
      Onward(v, x, init);
      assert path[n - 1] in v.Adjacent(path[n - 2]);
      v.ReachStep({x}, path[n - 2], path[n - 1]);
    }
  }

  lemma Through(v: View, x: nat, y: nat, z: nat)
    requires v.Reachable({x}, y) && v.Reachable({y}, z)
    ensures v.Reachable({x}, z)
  {
    var path :| v.Path(path) && path[0] in {y} && path[|path| - 1] == z;
    Onward(v, x, path);
  }

  // ---------------------------------------------------------------- linking one node on layer 0

  /** A list of distinct nodes that leaves out two of them is shorter by two. */
  lemma ShortList(list: seq<nat>, n: nat, x: nat, y: nat)
    requires Distinct(list) && (forall e | e in list :: e < n && e != x && e != y) && x < n && y < n && x != y
    ensures |list| + 2 <= n
  {
    var taken := list + [x, y];
    assert x !in list && y !in list && forall e | e in taken :: e in list || e == x || e == y;
    assert forall i, j | 0 <= i < j < |taken| :: taken[i] != taken[j];
    Pigeonhole(taken, n);
  }

  /** With room for every other node, a reciprocal edge never causes pruning. */
  lemma ReciprocalRoomy(p: Params, nodes: Nodes, other: nat, node: nat)
    requires Linked(nodes, p) && Roomy(nodes, p) && Fresh(nodes, node, 0)
    requires other < |nodes| && node < |nodes| && other != node
    ensures Reciprocal(p, VectorsOf(nodes), other, ListOf(nodes, other, 0), node, 0) == ListOf(nodes, other, 0) + [node]
  {
    var list := ListOf(nodes, other, 0);
    assert GoodNode(nodes, p, other) && |nodes[other].neighbors| == nodes[other].topLayer + 1;
    assert GoodList(nodes, p, other, 0, list);
    ShortList(list, |nodes|, other, node);
  }

  /** The list of `x` after `node` is linked to some others, when nothing is pruned. */
  function Unpruned(nodes: Nodes, node: nat, others: seq<nat>, x: nat): seq<nat> {
    if x == node then others else if x in others then ListOf(nodes, x, 0) + [node] else ListOf(nodes, x, 0)
  }

  /** The lists after linking a fresh node to some others. */
  lemma RoomyLists(p: Params, nodes: Nodes, node: nat, others: seq<nat>)
    requires Linked(nodes, p) && Roomy(nodes, p) && node < |nodes| && Fresh(nodes, node, 0)
    requires GoodList(nodes, p, node, 0, others)
    ensures forall x: nat :: ListOf(Link(p, nodes, node, others, 0), x, 0) == Unpruned(nodes, node, others, x)
  {
    var n := Link(p, nodes, node, others, 0);
    forall x: nat ensures ListOf(n, x, 0) == Unpruned(nodes, node, others, x) {
      if x < |nodes| {
        assert |nodes[x].neighbors| == nodes[x].topLayer + 1;
        if x != node && x in others { ReciprocalRoomy(p, nodes, x, node); }
        assert [] + others == others;
      }
    }
  }

  /** Linking a fresh node to at least one other keeps edges mutual and nodes joined. */
  lemma LinkJoins(p: Params, nodes: Nodes, node: nat, others: seq<nat>, q: Vector)
    requires Linked(nodes, p) && Roomy(nodes, p) && node < |nodes| && Fresh(nodes, node, 0)
    requires GoodList(nodes, p, node, 0, others) && others != [] && Mutual(nodes)
    requires forall x: nat, y: nat | x < |nodes| && y < |nodes| && x != node && y != node ::
      Base(p, nodes, q).Reachable({x}, y)
    ensures var n := Link(p, nodes, node, others, 0); Mutual(n) && Joined(Base(p, n, q))
  {
    var n := Link(p, nodes, node, others, 0);
    LinkedFacts(p, nodes, node, others);
    HubInside(nodes, p, node, others);
    hide Linked, GoodList, Link, Fresh, Shaped, Mutual, Extends, ListOf, View.Reachable, View.Adjacent;
    var v, hub := Base(p, n, q), others[0];
    forall x: nat, y: nat | x < |nodes| && y < |nodes| && x != node && y != node ensures v.Reachable({x}, y) {
      StaysReached(p, nodes, n, q, x, y);
    }
    AdjacentIsList(p, n, q, hub);
    AdjacentIsList(p, n, q, node);
    HubJoins(v, node, hub);
  }

  lemma LinkedFacts(p: Params, nodes: Nodes, node: nat, others: seq<nat>)
    requires Linked(nodes, p) && Roomy(nodes, p) && node < |nodes| && Fresh(nodes, node, 0)
    requires GoodList(nodes, p, node, 0, others) && others != [] && Mutual(nodes)
    ensures var n := Link(p, nodes, node, others, 0);
      && Shaped(nodes) && Shaped(n) && |n| == |nodes| && Mutual(n) && Extends(nodes, n)
      && ListOf(n, node, 0) == others && node in ListOf(n, others[0], 0)
  {
    var n := Link(p, nodes, node, others, 0);
    RoomyLists(p, nodes, node, others);
    LinkSkeleton(p, nodes, node, others, 0);
    assert Shaped(n) && |n| == |nodes|;
    LinkedMutual(nodes, n, node, others);
    hide Linked, GoodList, Link, Shaped, Mutual;
    assert others[0] in ListOf(n, node, 0);
  }

  /** A node linked both ways to one of a joined rest joins it. */
  lemma HubJoins(v: View, node: nat, hub: nat)
    requires node < |v.nodes| && hub < |v.nodes| && hub != node
    requires hub in v.Adjacent(node) && node in v.Adjacent(hub)
    requires forall x: nat, y: nat | x < |v.nodes| && y < |v.nodes| && x != node && y != node :: v.Reachable({x}, y)
    ensures Joined(v)
  {
    v.ReachSelf({node}, node);
    v.ReachStep({node}, node, hub);
    v.ReachSelf({hub}, hub);
    v.ReachStep({hub}, hub, node);
    hide View.Reachable;
    forall x: nat, y: nat | x < |v.nodes| && y < |v.nodes| ensures v.Reachable({x}, y) {
      if x != node && y == node { Through(v, x, hub, y); }
      if x == node && y != node { Through(v, x, hub, y); }
    }
  }

  lemma HubInside(nodes: Nodes, p: Params, node: nat, others: seq<nat>)
    requires GoodList(nodes, p, node, 0, others) && others != []
    ensures others[0] in others && others[0] < |nodes| && others[0] != node
  {
  }

  lemma LinkedMutual(a: Nodes, b: Nodes, node: nat, others: seq<nat>)
    requires Mutual(a) && Fresh(a, node, 0) && node !in others
    requires forall x: nat :: ListOf(b, x, 0) == Unpruned(a, node, others, x)
    ensures Mutual(b)
  {
    hide ListOf;
    forall x: nat, y: nat ensures x in ListOf(b, y, 0) <==> y in ListOf(b, x, 0) {
      assert x in ListOf(a, y, 0) <==> y in ListOf(a, x, 0);
    }
  }

  /** What a search from a joined layer finds is not empty, nor is the selection from it. */
  lemma SomeFound(v: View, cur: nat, ef: nat, found: seq<Item>, visited: set<nat>)
    requires v.Answers({cur}, ef, found, visited) && ef >= 1
    ensures found != []
  {
    v.ReachSelf({cur}, cur);
  }

  lemma SomeSelected(p: Params, n: Nodes, node: nat, found: seq<Item>)
    requires found != [] && Limit(p, 0) >= 1 && forall r | r in found :: r.node != node
    requires forall i, j | 0 <= i < j < |found| :: found[i].node != found[j].node
    ensures Without(Select(p.metric, VectorsOf(n), found, Limit(p, 0)), node) != []
  {
    var picked := Select(p.metric, VectorsOf(n), found, Limit(p, 0));
    SelectWithin(p.metric, VectorsOf(n), found, Limit(p, 0));
    var pos := SelectIsSelection(p.metric, VectorsOf(n), found, Limit(p, 0));
    hide Select, Selection;
    assert |picked| == |pos| && picked[0] in picked && picked[0] != node;
    WithoutFacts(picked, node);
  }

  /** The last layer of an insertion joins the new node. */
  lemma LayerJoins(p: Params, node: nat, n: Nodes, cur: nat, n': Nodes, cur': nat, q: Vector)
    requires Linked(n, p) && LayerLinked(p, node, 0, n, cur, n', cur') && p.efConstruction >= 1
    requires Fresh(n, node, 0) && cur < |n| && cur != node && Roomy(n, p) && Mutual(n)
    requires forall x: nat, y: nat | x < |n| && y < |n| && x != node && y != node :: Base(p, n, q).Reachable({x}, y)
    ensures Mutual(n') && Joined(Base(p, n', q))
  {
    hide Linked, Link, Select, Without, GoodList, View.Answers, Mutual, Fresh, View.Reachable;
    var v := View(n, p.metric, n[node].vector, 0);
    var found: seq<Item>, visited: set<nat> :| v.Answers({cur}, p.efConstruction, found, visited)
      && n' == Connect(p, n, node, found, 0) && cur' == if found == [] then cur else found[0].node;
    FoundGood(v, node, cur, p.efConstruction, found, visited);
    CandidatesGood(p, n, node, found, 0);
    SomeFound(v, cur, p.efConstruction, found, visited);
    SomeSelected(p, n, node, found);
    LinkJoins(p, n, node, Without(Select(p.metric, VectorsOf(n), found, Limit(p, 0)), node), q);
  }

  // ---------------------------------------------------------------- every run

  ghost predicate SameBase(a: Nodes, b: Nodes) { forall x: nat :: ListOf(a, x, 0) == ListOf(b, x, 0) }

  /** The layers above 0 leave the lists of layer 0 alone. */
  lemma {:induction false} UpperKeepBase(p: Params, node: nat, n0: Nodes, c0: nat, hi: int, lo: nat, n: Nodes, c: nat)
    requires LinkedDown(p, node, n0, c0, hi, lo, n, c) && lo >= 1
    ensures SameBase(n0, n)
    decreases if hi < lo then 0 else hi - lo + 1
  {
    hide Link, Select, View.Answers, ListOf;
    if lo <= hi {
      var n1: Nodes, c1: nat :| LinkedDown(p, node, n0, c0, hi, lo + 1, n1, c1)
        && LayerLinked(p, node, lo, n1, c1, n, c);
      UpperKeepBase(p, node, n0, c0, hi, lo + 1, n1, c1);
      var found: seq<Item>, visited: set<nat> :|
        View(n1, p.metric, n1[node].vector, lo).Answers({c1}, p.efConstruction, found, visited)
        && n == Connect(p, n1, node, found, lo) && c == if found == [] then c1 else found[0].node;
      LinkSkeleton(p, n1, node, Without(Select(p.metric, VectorsOf(n1), found, Limit(p, lo)), node), lo);
    }
  }

  /** Graphs with the same lists are joined alike, and so is a smaller graph inside a larger one. */
  lemma JoinedInside(p: Params, a: Nodes, b: Nodes, q: Vector)
    requires Shaped(a) && Shaped(b) && Extends(a, b) && Joined(Base(p, a, q))
    ensures forall x: nat, y: nat | x < |a| && y < |a| :: Base(p, b, q).Reachable({x}, y)
  {
    forall x: nat, y: nat | x < |a| && y < |a| ensures Base(p, b, q).Reachable({x}, y) {
      assert Base(p, a, q).Reachable({x}, y);
      StaysReached(p, a, b, q, x, y);
    }
  }

  lemma AppendSameBase(nodes: Nodes, id: RecordId, vec: Vector, level: nat)
    ensures SameBase(nodes, nodes + [NewNode(id, vec, level)])
  {
  }

  lemma MutualMoves(a: Nodes, b: Nodes)
    requires SameBase(a, b) && Mutual(a)
    ensures Mutual(b) && Extends(a, b)
  {
    hide ListOf;
    forall x: nat, y: nat ensures x in ListOf(b, y, 0) <==> y in ListOf(b, x, 0) {
      assert x in ListOf(a, y, 0) <==> y in ListOf(a, x, 0);
    }
  }

  /** Inserting a record into a joined graph that stays small gives a joined graph. */
  lemma InsertedJoins(p: Params, g: Graph, id: RecordId, vec: Vector, level: nat, g': Graph, q: Vector)
    requires WellFormed(g, p) && Inserted(p, g, id, vec, level, g') && p.efConstruction >= 1
    requires id !in g.ids && id != [] && |vec| == p.dimensionality
    requires |g'.nodes| == |g.nodes| + 1 && Roomy(g'.nodes, p)
    requires Mutual(g.nodes) && Joined(Base(p, g.nodes, q))
    ensures Mutual(g'.nodes) && Joined(Base(p, g'.nodes, q))
  {
    hide Linked, Fresh, Named, LinkedDown, Descent, LiveNodes, SameSkeleton, Mutual, Joined, SameBase, Extends,
      LayerLinked, View.Reachable;
    var added := NewNode(id, vec, level);
    var n0, node := g.nodes + [added], |g.nodes|;
    AppendLinked(p, g.nodes, added);
    EntryInside(g.nodes, g.entryPoint, g.maxLevel);
    AppendSameBase(g.nodes, id, vec, level);
    MutualMoves(g.nodes, n0);
    if g.entryPoint < 0 {
      OneNode(p, n0, q);
      return;
    }
    var c0: nat, c1: nat :|
      Descent(p, n0, vec, g.entryPoint, g.maxLevel, level, c0)
      && LinkedDown(p, node, n0, c0, Min(level, g.maxLevel), 0, g'.nodes, c1);
    DescentKeeps(p, n0, vec, g.entryPoint, g.maxLevel, level, c0);
    DescentStaysOld(p, g.nodes, added, vec, g.entryPoint, g.maxLevel, level, c0);
    ShapedOf(p, g.nodes);
    ShapedOf(p, n0);
    JoinedInside(p, g.nodes, n0, q);
    DownJoins(p, node, n0, c0, Min(level, g.maxLevel), g'.nodes, c1, q);
  }

  lemma ShapedOf(p: Params, nodes: Nodes)
    requires Linked(nodes, p)
    ensures Shaped(nodes)
  {
  }

  lemma OneNode(p: Params, nodes: Nodes, q: Vector)
    requires |nodes| == 1
    ensures Joined(Base(p, nodes, q))
  {
    Base(p, nodes, q).ReachSelf({0}, 0);
  }

  lemma DownJoins(p: Params, node: nat, n0: Nodes, c0: nat, hi: nat, n: Nodes, c: nat, q: Vector)
    requires LinkedDown(p, node, n0, c0, hi, 0, n, c) && p.efConstruction >= 1
    requires Linked(n0, p) && node < |n0| && c0 < |n0| && c0 != node && Roomy(n0, p) && Mutual(n0)
    requires hi <= n0[node].topLayer && hi <= n0[c0].topLayer
    requires forall l: nat | l <= hi :: Fresh(n0, node, l)
    requires forall x: nat, y: nat | x < |n0| && y < |n0| && x != node && y != node ::
      Base(p, n0, q).Reachable({x}, y)
    ensures Mutual(n) && Joined(Base(p, n, q))
  {
    hide Linked, Fresh, Mutual, Joined, SameBase, Extends, LayerLinked, View.Reachable;
    var n1: Nodes, c1: nat :| LinkedDown(p, node, n0, c0, hi, 1, n1, c1) && LayerLinked(p, node, 0, n1, c1, n, c);
    hide LinkedDown;
    LinkedDownKeeps(p, node, n0, c0, hi, 1, n1, c1);
    UpperKeepBase(p, node, n0, c0, hi, 1, n1, c1);
    MutualMoves(n0, n1);
    ShapedOf(p, n0);
    ShapedOf(p, n1);
    forall x: nat, y: nat | x < |n1| && y < |n1| && x != node && y != node ensures Base(p, n1, q).Reachable({x}, y) {
      StaysReached(p, n0, n1, q, x, y);
    }
    LayerJoins(p, node, n1, c1, n, c, q);
  }

  /** Changing a vector or a tombstone touches no list. */
  lemma PatchJoins(p: Params, nodes: Nodes, x: nat, node: Node, q: Vector)
    requires Linked(nodes, p) && x < |nodes| && node.neighbors == nodes[x].neighbors
    requires node.topLayer == nodes[x].topLayer && Mutual(nodes) && Joined(Base(p, nodes, q))
    ensures Mutual(nodes[x := node]) && Joined(Base(p, nodes[x := node], q))
  {
    PatchKeeps(p, nodes, x, node);
    ShapedOf(p, nodes);
    ShapedOf(p, nodes[x := node]);
    hide Linked, View.Reachable, Mutual, Shaped;
    assert SameBase(nodes, nodes[x := node]);
    MutualMoves(nodes, nodes[x := node]);
    JoinedInside(p, nodes, nodes[x := node], q);
  }

  /** One call keeps a small graph joined, and nodes are never dropped. */
  lemma StepJoins(p: Params, g: Graph, op: Op, g': Graph, q: Vector)
    requires WellFormed(g, p) && Step(p, g, op, g') && p.efConstruction >= 1
    ensures |g.nodes| <= |g'.nodes|
    ensures Roomy(g'.nodes, p) && Mutual(g.nodes) && Joined(Base(p, g.nodes, q)) ==>
      Mutual(g'.nodes) && Joined(Base(p, g'.nodes, q))
  {
    hide Linked, Mutual, Joined, Topped, LiveNodes, Inserted, Roomy, NewNode, SameSkeleton;
    if op.Add? && op.id != [] && |op.vec| == p.dimensionality && op.id !in g.ids {
      InsertedKeeps(p, g, op.id, op.vec, op.level, g');
      Grown(g.nodes, NewNode(op.id, op.vec, op.level), g'.nodes);
      if Roomy(g'.nodes, p) && Mutual(g.nodes) && Joined(Base(p, g.nodes, q)) {
        InsertedJoins(p, g, op.id, op.vec, op.level, g', q);
      }
    } else if g' != g {
      var x := g.ids[op.id];
      if Mutual(g.nodes) && Joined(Base(p, g.nodes, q)) { PatchJoins(p, g.nodes, x, g'.nodes[x], q); }
      assert g'.nodes == g.nodes[x := g'.nodes[x]];
    }
  }

  lemma Grown(nodes: Nodes, node: Node, n: Nodes)
    requires SameSkeleton(nodes + [node], n)
    ensures |n| == |nodes| + 1
  {
  }

  /** Every run from the empty index that ends with room for every node in every list has a connected, symmetric
      layer 0. */
  lemma {:induction false} SmallRunJoined(p: Params, ops: seq<Op>, states: seq<Graph>, q: Vector)
    requires p.efConstruction >= 1
    requires |states| == |ops| + 1 && states[0] == EMPTY
    requires forall i | 0 <= i < |ops| :: Step(p, states[i], ops[i], states[i + 1])
    requires Roomy(states[|ops|].nodes, p)
    ensures Mutual(states[|ops|].nodes) && Joined(Base(p, states[|ops|].nodes, q))
    decreases |ops|
  {
    hide Mutual, Joined, Step;
    var n := |ops|;
    if n == 0 {
      NoNodes(p, q);
    } else {
      var ops', states' := ops[..n - 1], states[..n];
      forall i | 0 <= i < n - 1 ensures Step(p, states'[i], ops'[i], states'[i + 1]) {
        assert Step(p, states[i], ops[i], states[i + 1]);
      }
      RunKeeps(p, ops', states');
      assert Step(p, states[n - 1], ops[n - 1], states[n]);
      StepJoins(p, states[n - 1], ops[n - 1], states[n], q);
      SmallRunJoined(p, ops', states', q);
    }
  }

  lemma NoNodes(p: Params, q: Vector)
    ensures Mutual([]) && Joined(Base(p, [], q))
  {
  }

  /** A search broader than a small graph is exhaustive: with `SearchIn`, it returns the exact top k. */
  lemma SmallIsExhaustive(g: HnswIndex, ops: seq<Op>, states: seq<Graph>, q: Vector, k: nat, efSearch: nat, nprobe: nat)
    requires g.Valid() && k > 0 && g.liveCount > 0 && (|g.nodes| < efSearch || |g.nodes| < k)
    requires |states| == |ops| + 1 && states[0] == EMPTY && states[|ops|] == g.G() && Roomy(g.nodes, g.P())
    requires forall i | 0 <= i < |ops| :: Step(g.P(), states[i], ops[i], states[i + 1])
    ensures Exhaustive(Index.Graph(g), q, k, efSearch, nprobe)
  {
    SmallRunJoined(g.P(), ops, states, q);
    forall start: nat | Descent(g.P(), g.nodes, q, g.entryPoint, g.maxLevel, 0, start)
      ensures g.Reached(q, start) == Contents(g.G())
    {
      StartInside(g, q, start);
      AllReached(g, q, start);
    }
  }

  lemma StartInside(g: HnswIndex, q: Vector, start: nat)
    requires g.Valid() && g.liveCount > 0 && Descent(g.P(), g.nodes, q, g.entryPoint, g.maxLevel, 0, start)
    ensures start < |g.nodes|
  {
    hide Descent;
    assert LiveNodes(g.nodes) != {};
    EntryInside(g.nodes, g.entryPoint, g.maxLevel);
    DescentKeeps(g.P(), g.nodes, q, g.entryPoint, g.maxLevel, 0, start);
  }

  lemma AllReached(g: HnswIndex, q: Vector, start: nat)
    requires g.Valid() && start < |g.nodes| && Joined(Base(g.P(), g.nodes, q))
    ensures g.Reached(q, start) == Contents(g.G())
  {
    hide Linked, Topped, View.Reachable;
    assert Base(g.P(), g.nodes, q) == View(g.nodes, g.metric, q, 0);
  }

  // ---------------------------------------------------------------- the neighbours of a new record

  function FirstIds(n: nat): (s: seq<nat>)
    ensures |s| == n && forall x: nat :: x in s <==> x < n
  {
    if n == 0 then [] else FirstIds(n - 1) + [n - 1]
  }

  /** An offer names distinct nodes. */
  lemma OfferShort(p: Params, before: Nodes, vec: Vector, layer: nat, entered: nat, found: seq<Item>)
    requires Offered(p, before, vec, layer, entered, found)
    ensures |found| <= |before|
  {
    hide Score, View.Reachable, NearPath, Names;
    var ids: seq<nat> := seq(|found|, i requires 0 <= i < |found| => found[i].node);
    forall i, j | 0 <= i < j < |ids| ensures ids[i] != ids[j] { assert found[i] in found && found[j] in found; }
    forall x | x in ids ensures x < |before| {
      var i :| 0 <= i < |ids| && ids[i] == x;
      assert found[i] in found;
    }
    Pigeonhole(ids, |before|);
  }

  lemma EnteredInside(p: Params, g: Graph, vec: Vector, level: nat, g': Graph, stops: seq<nat>, entered: seq<nat>,
                      found: seq<seq<Item>>)
    requires WiredAlong(p, g, vec, level, g', stops, entered, found)
    ensures found != [] && entered != [] && entered[0] < |g.nodes|
  {
    hide Rewired, Stop, ListOf;
    if |entered| > 1 {
      assert EnteredBelow(entered, found, 0);
      var k := 1;
      assert Offered(p, g.nodes, vec, 0 + k, entered[k], found[k]);
      OfferInside(p, g.nodes, vec, 1, entered[1], found[1]);
    } else {
      assert stops[|stops| - 1] in stops;
    }
  }

  lemma OfferInside(p: Params, before: Nodes, vec: Vector, layer: nat, entered: nat, found: seq<Item>)
    requires Offered(p, before, vec, layer, entered, found)
    ensures found != [] && found[0].node < |before|
  {
    hide Score, View.Reachable, NearPath, Names;
    assert found[0] in found;
  }

  /** A new record's list on a joined layer 0 of fewer than ef_construction nodes is the diverse selection from all of
      them. */
  lemma SmallNeighbours(p: Params, g: Graph, id: RecordId, vec: Vector, level: nat, g': Graph)
    requires WellFormed(g, p) && Inserted(p, g, id, vec, level, g') && g.nodes != []
    requires |g.nodes| < p.efConstruction && Joined(Base(p, g.nodes, vec))
    ensures exists all ::
      RankedFrom(p.metric, VectorsOf(g'.nodes), |g.nodes|, FirstIds(|g.nodes|), all)
      && Chosen(p.metric, VectorsOf(g'.nodes), all, Limit(p, 0), ListOf(g'.nodes, |g.nodes|, 0))
  {
    InsertedWires(p, g, id, vec, level, g');
    EntryInside(g.nodes, g.entryPoint, g.maxLevel);
    SomeEntry(g, p);
    hide WellFormed, Inserted, Joined, Chosen, WiredAlong, Offered, RankedFrom, ListOf, FirstIds;
    var stops: seq<nat>, entered: seq<nat>, found: seq<seq<Item>> :|
      WiredAlong(p, g, vec, level, g', stops, entered, found);
    EnteredInside(p, g, vec, level, g', stops, entered, found);
    FirstLayer(p, g, vec, level, g', stops, entered, found);
    OfferShort(p, g.nodes, vec, 0, entered[0], found[0]);
    AllScoredItems(p, g, vec, g', entered[0], found[0]);
  }

  lemma SomeEntry(g: Graph, p: Params)
    requires WellFormed(g, p) && g.nodes != []
    ensures 0 <= g.entryPoint < |g.nodes|
  {
    hide Linked, Named;
  }

  lemma FirstLayer(p: Params, g: Graph, vec: Vector, level: nat, g': Graph, stops: seq<nat>, entered: seq<nat>,
                   found: seq<seq<Item>>)
    requires WiredAlong(p, g, vec, level, g', stops, entered, found) && found != [] && entered != []
    ensures Offered(p, g.nodes, vec, 0, entered[0], found[0]) && VectorsOf(g'.nodes) == VectorsOf(g.nodes) + [vec]
    ensures Chosen(p.metric, VectorsOf(g'.nodes), found[0], Limit(p, 0), ListOf(g'.nodes, |g.nodes|, 0))
  {
    hide Offered, Chosen, Extended, ListOf, Stop;
    var k := 0;
    assert Offered(p, g.nodes, vec, 0 + k, entered[k], found[k])
      && Rewired(p, g.nodes, VectorsOf(g'.nodes), 0 + k, found[k], g'.nodes);
  }

  lemma AllScoredItems(p: Params, g: Graph, vec: Vector, g': Graph, entered: nat, found: seq<Item>)
    requires Offered(p, g.nodes, vec, 0, entered, found) && |found| < p.efConstruction && entered < |g.nodes|
    requires Joined(Base(p, g.nodes, vec)) && VectorsOf(g'.nodes) == VectorsOf(g.nodes) + [vec]
    ensures RankedFrom(p.metric, VectorsOf(g'.nodes), |g.nodes|, FirstIds(|g.nodes|), found)
  {
    hide Score, View.Reachable, NearPath, FirstIds, ByDistance;
    var v, vectors := Base(p, g.nodes, vec), VectorsOf(g'.nodes);
    forall x: nat | x < |g.nodes| ensures Names(found, x) { assert v.Reachable({entered}, x); }
    forall x: nat | x < |g.nodes| ensures vectors[x] == g.nodes[x].vector {
      assert vectors[x] == VectorsOf(g.nodes)[x];
    }
    assert vectors[|g.nodes|] == vec;
  }
}
