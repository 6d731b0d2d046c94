/** Every run of add and remove keeps the layered-graph invariant and the stored contents. */
module HnswSteps {
  import opened Ordering
  import opened Vectors
  import opened HnswGraph
  import opened HnswModel

  /** The layers of an insertion, top down, keep the graph legal. */
  lemma {:induction false} LinkedDownKeeps(p: Params, node: nat, n0: Nodes, c0: nat, hi: int, lo: nat, n: Nodes, c: nat)
    requires LinkedDown(p, node, n0, c0, hi, lo, n, c) && p.efConstruction >= 1
    requires Linked(n0, p) && node < |n0| && c0 < |n0| && c0 != node
    requires lo <= hi + 1 && hi <= n0[node].topLayer && hi <= n0[c0].topLayer
    requires forall l: nat | l <= hi :: Fresh(n0, node, l)
    ensures Linked(n, p) && SameSkeleton(n0, n)
    ensures c < |n| && c != node && lo <= n[c].topLayer + 1
    ensures forall l: nat | l < lo :: Fresh(n, node, l)
    decreases if hi < lo then 0 else hi - lo + 1
  {
    hide Linked, Fresh, LayerLinked;
    if lo <= hi {
      var n1: Nodes, c1: nat :| LinkedDown(p, node, n0, c0, hi, lo + 1, n1, c1)
        && LayerLinked(p, node, lo, n1, c1, n, c);
      LinkedDownKeeps(p, node, n0, c0, hi, lo + 1, n1, c1);
      LayerKeeps(p, node, lo, n1, c1, n, c);
    }
  }

  lemma {:induction false} DescentKeeps(p: Params, nodes: Nodes, q: Vector, from: nat, hi: int, lo: int, to: nat)
    requires Descent(p, nodes, q, from, hi, lo, to) && lo >= -1
    requires from < |nodes| && hi <= nodes[from].topLayer && Linked(nodes, p)
    ensures to < |nodes| && (lo < hi ==> lo < nodes[to].topLayer) && (hi <= lo ==> to == from)
    decreases if hi < lo then 0 else hi - lo
  {
    if lo < hi {
      var mid: nat :| Descent(p, nodes, q, from, hi, lo + 1, mid) && DescendedAbove(p, nodes, q, lo, mid, to);
      DescentKeeps(p, nodes, q, from, hi, lo + 1, mid);
    }
  }

  // ---------------------------------------------------------------- add

  function NewNode(id: RecordId, vec: Vector, level: nat): Node {
    Node(id, vec, level, false, seq(level + 1, _ => []))
  }

  /** Re-adding a known id replaces its vector and revives it; the edges stay. */
  function Revive(g: Graph, id: RecordId, vec: Vector): Graph
    requires id in g.ids && g.ids[id] < |g.nodes|
  {
    var x := g.ids[id];
    Graph(g.nodes[x := g.nodes[x].(vector := vec, deleted := false)], g.ids, g.entryPoint, g.maxLevel,
          if g.nodes[x].deleted then g.liveCount + 1 else g.liveCount)
  }

  function Min(a: int, b: int): int { if a < b then a else b }

  /** The graph after a new node of the given level has been linked from its top layer down. */
  ghost predicate Inserted(p: Params, g: Graph, id: RecordId, vec: Vector, level: nat, g': Graph) {
    var node := |g.nodes|;
    var n0 := g.nodes + [NewNode(id, vec, level)];
    var ids := g.ids[id := node];
    if g.entryPoint < 0 then g' == Graph(n0, ids, node, level, g.liveCount + 1)
    else
      && g'.ids == ids && g'.liveCount == g.liveCount + 1
      && g'.entryPoint == (if level > g.maxLevel then node else g.entryPoint)
      && g'.maxLevel == (if level > g.maxLevel then level else g.maxLevel)
      && exists c0: nat, c1: nat ::
           Descent(p, n0, vec, g.entryPoint, g.maxLevel, level, c0)
           && LinkedDown(p, node, n0, c0, Min(level, g.maxLevel), 0, g'.nodes, c1)
  }

  ghost predicate AddStep(p: Params, g: Graph, id: RecordId, vec: Vector, level: nat, g': Graph) {
    if id in g.ids then g.ids[id] < |g.nodes| && g' == Revive(g, id, vec) else Inserted(p, g, id, vec, level, g')
  }

  lemma AppendLinked(p: Params, nodes: Nodes, node: Node)
    requires Linked(nodes, p) && |node.neighbors| == node.topLayer + 1
    requires forall l | 0 <= l < |node.neighbors| :: node.neighbors[l] == []
    ensures Linked(nodes + [node], p)
    ensures forall l: nat :: Fresh(nodes + [node], |nodes|, l)
  {
    var n := nodes + [node];
    forall x | 0 <= x < |n| ensures GoodNode(n, p, x) {
      if x < |nodes| { assert GoodNode(nodes, p, x); }
      forall l | 0 <= l < |n[x].neighbors| ensures GoodList(n, p, x, l, n[x].neighbors[l]) {
        if x < |nodes| { assert GoodList(nodes, p, x, l, nodes[x].neighbors[l]); }
      }
    }
    forall l: nat, x: nat ensures |nodes| !in ListOf(n, x, l) {
      if x < |nodes| && l < |nodes[x].neighbors| {
        assert GoodNode(nodes, p, x);
        assert GoodList(nodes, p, x, l, nodes[x].neighbors[l]);
      }
    }
  }

  lemma LiveAppend(nodes: Nodes, node: Node, n: Nodes)
    requires SameSkeleton(nodes + [node], n) && !node.deleted
    ensures |LiveNodes(n)| == |LiveNodes(nodes)| + 1
  {
    assert LiveNodes(n) == LiveNodes(nodes) + {|nodes|};
  }

  lemma NamedAppend(p: Params, g: Graph, node: Node, n: Nodes)
    requires Named(g.nodes, g.ids, p) && node.id !in g.ids && node.id != [] && |node.vector| == p.dimensionality
    requires SameSkeleton(g.nodes + [node], n)
    ensures Named(n, g.ids[node.id := |g.nodes|], p)
  {
    var n0 := g.nodes + [node];
    var ids := g.ids[node.id := |g.nodes|];
    forall i | 0 <= i < |n|
      ensures n[i].id != [] && |n[i].vector| == p.dimensionality && n[i].id in ids && ids[n[i].id] == i
    {
      assert n[i].id == n0[i].id;
      if i < |g.nodes| { assert n0[i] == g.nodes[i] && g.nodes[i].id in g.ids; }
    }
    forall id | id in ids ensures ids[id] < |n| && n[ids[id]].id == id {
      assert n[ids[id]].id == n0[ids[id]].id;
    }
  }

  lemma ToppedAppend(nodes: Nodes, node: Node, n: Nodes, entryPoint: int, maxLevel: int)
    requires Topped(nodes, entryPoint, maxLevel) && SameSkeleton(nodes + [node], n)
    ensures entryPoint < 0 <==> nodes == []
    ensures entryPoint < 0 ==> Topped(n, |nodes|, node.topLayer)
    ensures entryPoint >= 0 ==> Topped(n, if node.topLayer > maxLevel then |nodes| else entryPoint,
                                       if node.topLayer > maxLevel then node.topLayer else maxLevel)
  {
    var n0 := nodes + [node];
    forall i | 0 <= i < |n| ensures n[i].topLayer == n0[i].topLayer && (i < |nodes| ==> n0[i] == nodes[i]) {
    }
  }

  lemma SkeletonSelf(nodes: Nodes)
    ensures SameSkeleton(nodes, nodes)
  {
  }

  lemma EntryInside(nodes: Nodes, entryPoint: int, maxLevel: int)
    requires Topped(nodes, entryPoint, maxLevel)
    ensures entryPoint < |nodes|
    ensures entryPoint >= 0 ==> nodes[entryPoint].topLayer == maxLevel
  {
  }

  /** Inserting a new record keeps the invariant. */
  lemma InsertedKeeps(p: Params, g: Graph, id: RecordId, vec: Vector, level: nat, g': Graph)
    requires WellFormed(g, p) && Inserted(p, g, id, vec, level, g') && p.efConstruction >= 1
    requires id !in g.ids && id != [] && |vec| == p.dimensionality
    ensures WellFormed(g', p)
    ensures SameSkeleton(g.nodes + [NewNode(id, vec, level)], g'.nodes)
  {
    hide Linked, Fresh, Named, Topped, LinkedDown, Descent, LiveNodes, SameSkeleton;
    var added := NewNode(id, vec, level);
    var n0 := g.nodes + [added];
    AppendLinked(p, g.nodes, added);
    SkeletonSelf(n0);
    EntryInside(g.nodes, g.entryPoint, g.maxLevel);
    if g.entryPoint >= 0 {
      var c0: nat, c1: nat :|
        Descent(p, n0, vec, g.entryPoint, g.maxLevel, level, c0)
        && LinkedDown(p, |g.nodes|, n0, c0, Min(level, g.maxLevel), 0, g'.nodes, c1);
      DescentKeeps(p, n0, vec, g.entryPoint, g.maxLevel, level, c0);
      DescentStaysOld(p, g.nodes, added, vec, g.entryPoint, g.maxLevel, level, c0);
      LinkedDownKeeps(p, |g.nodes|, n0, c0, Min(level, g.maxLevel), 0, g'.nodes, c1);
    }
    ToppedAppend(g.nodes, added, g'.nodes, g.entryPoint, g.maxLevel);
    LiveAppend(g.nodes, added, g'.nodes);
    NamedAppend(p, g, added, g'.nodes);
  }

  /** The descent never reaches the node just appended: nothing points to it yet. */
  lemma {:induction false} DescentStaysOld(p: Params, nodes: Nodes, node: Node, q: Vector, from: nat, hi: int, lo: int,
                             to: nat)
    requires Descent(p, nodes + [node], q, from, hi, lo, to) && from < |nodes| && lo >= -1
    requires Linked(nodes, p) && |node.neighbors| == node.topLayer + 1
    requires forall l | 0 <= l < |node.neighbors| :: node.neighbors[l] == []
    ensures to < |nodes|
    decreases if hi < lo then 0 else hi - lo
  {
    var n := nodes + [node];
    if lo < hi {
      var mid: nat :| Descent(p, n, q, from, hi, lo + 1, mid) && DescendedAbove(p, n, q, lo, mid, to);
      DescentStaysOld(p, nodes, node, q, from, hi, lo + 1, mid);
      AppendLinked(p, nodes, node);
      var v := View(n, p.metric, q, lo + 1);
      assert v.Descended(mid, to);
      var path :| v.Path(path) && path[0] in {mid} && path[|path| - 1] == to;
      assert Fresh(n, |nodes|, lo + 1);
      NotReached(v, |nodes|, {mid}, path);
    }
  }

  /** An inserted record joins the contents and nothing else changes. */
  lemma InsertedContents(p: Params, g: Graph, id: RecordId, vec: Vector, level: nat, g': Graph)
    requires Named(g.nodes, g.ids, p) && Named(g'.nodes, g'.ids, p)
    requires id !in g.ids && g'.ids == g.ids[id := |g.nodes|]
    requires SameSkeleton(g.nodes + [NewNode(id, vec, level)], g'.nodes)
    ensures Contents(g') == Contents(g)[id := vec]
  {
    var n0 := g.nodes + [NewNode(id, vec, level)];
    forall x | x in g'.ids ensures
      g'.nodes[g'.ids[x]].vector == n0[g'.ids[x]].vector && g'.nodes[g'.ids[x]].deleted == n0[g'.ids[x]].deleted {
    }
  }

  // ---------------------------------------------------------------- re-adding and removing

  /** Changing a node's vector and tombstone flag touches no edge. */
  lemma PatchKeeps(p: Params, nodes: Nodes, x: nat, node: Node)
    requires Linked(nodes, p) && x < |nodes|
    requires node.topLayer == nodes[x].topLayer && node.neighbors == nodes[x].neighbors
    ensures Linked(nodes[x := node], p)
  {
    var n := nodes[x := node];
    forall i | 0 <= i < |n| ensures GoodNode(n, p, i) {
      assert GoodNode(nodes, p, i);
      forall l | 0 <= l < |n[i].neighbors| ensures GoodList(n, p, i, l, n[i].neighbors[l]) {
        assert GoodList(nodes, p, i, l, nodes[i].neighbors[l]);
      }
    }
  }

  lemma PatchLive(nodes: Nodes, x: nat, node: Node)
    requires x < |nodes|
    ensures node.deleted && !nodes[x].deleted ==> |LiveNodes(nodes[x := node])| == |LiveNodes(nodes)| - 1
    ensures !node.deleted && nodes[x].deleted ==> |LiveNodes(nodes[x := node])| == |LiveNodes(nodes)| + 1
    ensures node.deleted == nodes[x].deleted ==> |LiveNodes(nodes[x := node])| == |LiveNodes(nodes)|
  {
    assert x in LiveNodes(nodes) <==> !nodes[x].deleted;
    PatchLiveSet(nodes, x, node);
    hide LiveNodes;
    SetCounts(LiveNodes(nodes), x);
  }

  lemma SetCounts(s: set<nat>, x: nat)
    ensures x in s ==> |s - {x}| == |s| - 1 && s + {x} == s
    ensures x !in s ==> |s + {x}| == |s| + 1 && s - {x} == s
  {
  }

  lemma PatchLiveSet(nodes: Nodes, x: nat, node: Node)
    requires x < |nodes|
    ensures LiveNodes(nodes[x := node]) == if node.deleted then LiveNodes(nodes) - {x} else LiveNodes(nodes) + {x}
  {
  }

  lemma PatchTopped(nodes: Nodes, x: nat, node: Node, entryPoint: int, maxLevel: int)
    requires x < |nodes| && Topped(nodes, entryPoint, maxLevel) && node.topLayer == nodes[x].topLayer
    ensures Topped(nodes[x := node], entryPoint, maxLevel)
  {
  }

  /** Replacing a known id's vector keeps the invariant, whether or not it revives a tombstone. */
  lemma ReviveKeeps(p: Params, g: Graph, id: RecordId, vec: Vector)
    requires WellFormed(g, p) && id in g.ids && |vec| == p.dimensionality
    ensures WellFormed(Revive(g, id, vec), p)
    ensures Contents(Revive(g, id, vec)) == Contents(g)[id := vec]
  {
    var x := g.ids[id];
    var node := g.nodes[x].(vector := vec, deleted := false);
    PatchKeeps(p, g.nodes, x, node);
    PatchLive(g.nodes, x, node);
    PatchTopped(g.nodes, x, node, g.entryPoint, g.maxLevel);
    hide Linked, Topped, LiveNodes;
    assert Named(Revive(g, id, vec).nodes, g.ids, p);
  }

  /** Tombstoning: the node stays for routing and is no longer live. */
  function Tombstone(g: Graph, id: RecordId): Graph
    requires id in g.ids && g.ids[id] < |g.nodes| && g.liveCount > 0
  {
    var x := g.ids[id];
    Graph(g.nodes[x := g.nodes[x].(deleted := true)], g.ids, g.entryPoint, g.maxLevel, g.liveCount - 1)
  }

  lemma TombstoneKeeps(p: Params, g: Graph, id: RecordId)
    requires WellFormed(g, p) && id in Contents(g)
    ensures g.liveCount > 0 && WellFormed(Tombstone(g, id), p)
    ensures Contents(Tombstone(g, id)) == Contents(g) - {id}
  {
    var x := g.ids[id];
    assert x in LiveNodes(g.nodes);
    var node := g.nodes[x].(deleted := true);
    PatchKeeps(p, g.nodes, x, node);
    PatchLive(g.nodes, x, node);
    PatchTopped(g.nodes, x, node, g.entryPoint, g.maxLevel);
    hide Linked, Topped, LiveNodes;
    assert Named(Tombstone(g, id).nodes, g.ids, p);
  }

  // ---------------------------------------------------------------- every run

  datatype Op = Add(id: RecordId, vec: Vector, level: nat) | Remove(id: RecordId)

  /** One call on the index, with whatever level the generator drew. */
  ghost predicate Step(p: Params, g: Graph, op: Op, g': Graph) {
    match op
    case Add(id, vec, level) =>
      if id == [] || |vec| != p.dimensionality then g' == g else AddStep(p, g, id, vec, level, g')
    case Remove(id) =>
      if id in g.ids && g.ids[id] < |g.nodes| && !g.nodes[g.ids[id]].deleted
      then g.liveCount > 0 && g' == Tombstone(g, id) else g' == g
  }

  /** What a call does to the stored records, said without any graph. */
  function Apply(p: Params, contents: map<RecordId, Vector>, op: Op): map<RecordId, Vector> {
    match op
    case Add(id, vec, _) => if id == [] || |vec| != p.dimensionality then contents else contents[id := vec]
    case Remove(id) => contents - {id}
  }

  function Replay(p: Params, ops: seq<Op>): map<RecordId, Vector> {
    if ops == [] then map[] else Apply(p, Replay(p, ops[..|ops| - 1]), ops[|ops| - 1])
  }

  lemma StepKeeps(p: Params, g: Graph, op: Op, g': Graph)
    requires WellFormed(g, p) && Step(p, g, op, g') && p.efConstruction >= 1
    ensures WellFormed(g', p) && Contents(g') == Apply(p, Contents(g), op)
  {
    hide WellFormed, Inserted;
    match op
    case Add(id, vec, level) =>
      if id != [] && |vec| == p.dimensionality {
        StepAddKeeps(p, g, id, vec, level, g');
      }
    case Remove(id) =>
      StepRemoveKeeps(p, g, id, g');
  }

  lemma StepAddKeeps(p: Params, g: Graph, id: RecordId, vec: Vector, level: nat, g': Graph)
    requires WellFormed(g, p) && AddStep(p, g, id, vec, level, g') && p.efConstruction >= 1
    requires id != [] && |vec| == p.dimensionality
    ensures WellFormed(g', p) && Contents(g') == Contents(g)[id := vec]
  {
    hide Linked, Topped, LiveNodes, LinkedDown, Descent;
    if id in g.ids {
      ReviveKeeps(p, g, id, vec);
    } else {
      InsertedKeeps(p, g, id, vec, level, g');
      InsertedContents(p, g, id, vec, level, g');
    }
  }

  lemma StepRemoveKeeps(p: Params, g: Graph, id: RecordId, g': Graph)
    requires WellFormed(g, p) && Step(p, g, Remove(id), g')
    ensures WellFormed(g', p) && Contents(g') == Contents(g) - {id}
  {
    hide Linked, Topped, LiveNodes;
    if id in Contents(g) {
      TombstoneKeeps(p, g, id);
    } else {
      assert Contents(g) - {id} == Contents(g);
    }
  }

  /** Every run from the empty index, with every choice of levels, ends in a well-formed graph that
      stores exactly what replaying the calls on a plain map gives. */
  lemma {:induction false} RunKeeps(p: Params, ops: seq<Op>, states: seq<Graph>)
    requires p.efConstruction >= 1
    requires |states| == |ops| + 1 && states[0] == EMPTY
    requires forall i | 0 <= i < |ops| :: Step(p, states[i], ops[i], states[i + 1])
    ensures WellFormed(states[|ops|], p) && Contents(states[|ops|]) == Replay(p, ops)
    decreases |ops|
  {
    var n := |ops|;
    if n > 0 {
      var ops', states' := ops[..n - 1], states[..n];
      forall i | 0 <= i < n - 1 ensures Step(p, states'[i], ops'[i], states'[i + 1]) {
        assert Step(p, states[i], ops[i], states[i + 1]);
      }
      RunKeeps(p, ops', states');
      assert Step(p, states[n - 1], ops[n - 1], states[n]);
      StepKeeps(p, states[n - 1], ops[n - 1], states[n]);
    }
  }
}
