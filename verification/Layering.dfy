/**
 * The viewer's fallback grouping of a topology without phases: breadth-first
 * layers from the nodes without incoming edges.
 *
 * The viewer indexes edges in a plain object, so looking up a name that every such
 * object inherits ("constructor", "toString", ...) finds a member that is neither
 * missing nor a list. `inherited` stands for the set of those names.
 */
module Layering {

  datatype Edge = Edge(source: string, target: string)

  datatype Caption = AllNodes | Layer(number: nat) | Ungrouped | Phase(text: string)

  datatype Group = Group(caption: Caption, ids: seq<string>)

  datatype Topology = Topology(nodes: seq<string>, edges: seq<Edge>, phases: seq<Group>)

  datatype Outcome = TypeError | Groups(groups: seq<Group>)

  const TERMINALS: set<string> := {"__halt__", "__interrupt__"}

  // ---------------------------------------------------------- specification

  predicate HasIncoming(edges: seq<Edge>, id: string) {
    id !in TERMINALS && exists i :: 0 <= i < |edges| && edges[i].target == id
  }

  predicate IsRoot(t: Topology, id: string) {
    id in t.nodes && !HasIncoming(t.edges, id)
  }

  /** A root: a node no edge leads to, or one of the two terminals, whatever leads to it. */
  lemma RootExactly(t: Topology, id: string)
    ensures IsRoot(t, id) <==>
              id in t.nodes && (id == "__halt__" || id == "__interrupt__" || forall e <- t.edges :: e.target != id)
  {
  }

  /** Some walk of exactly `k` edges leads from a root to `id`. */
  ghost predicate ReachIn(t: Topology, id: string, k: nat)
    decreases k
  {
    if k == 0 then IsRoot(t, id)
    else id in t.nodes && exists e <- t.edges :: e.target == id && ReachIn(t, e.source, k - 1)
  }

  /** `k` is the shortest distance from the roots to `id`. */
  ghost predicate AtDistance(t: Topology, id: string, k: nat) {
    ReachIn(t, id, k) && forall j: nat :: j < k ==> !ReachIn(t, id, j)
  }

  ghost predicate Reachable(t: Topology, id: string) {
    exists k: nat :: ReachIn(t, id, k)
  }

  ghost predicate IsPath(t: Topology, p: seq<string>) {
    && p != [] && IsRoot(t, p[0])
    && (forall i :: 0 <= i < |p| ==> p[i] in t.nodes)
    && forall i :: 0 < i < |p| ==> Edge(p[i - 1], p[i]) in t.edges
  }

  lemma PathGrows(t: Topology, p: seq<string>, id: string)
    requires IsPath(t, p) && id in t.nodes && Edge(p[|p| - 1], id) in t.edges
    ensures IsPath(t, p + [id])
  {
  }

  lemma PathShrinks(t: Topology, p: seq<string>)
    requires IsPath(t, p) && |p| > 1
    ensures IsPath(t, p[..|p| - 1]) && p[|p| - 1] in t.nodes && Edge(p[|p| - 2], p[|p| - 1]) in t.edges
  {
  }

  /** Walks counted by length are paths: distances are lengths of shortest paths. */
  lemma {:induction false} ReachInIsPath(t: Topology, id: string, k: nat)
    ensures ReachIn(t, id, k) <==> exists p :: IsPath(t, p) && |p| == k + 1 && p[k] == id
    decreases k
  {
    if k == 0 {
      if ReachIn(t, id, 0) { assert IsPath(t, [id]); }
    } else {
      if ReachIn(t, id, k) {
        var e :| e in t.edges && e.target == id && ReachIn(t, e.source, k - 1);
        ReachInIsPath(t, e.source, k - 1);
        var p :| IsPath(t, p) && |p| == k && p[k - 1] == e.source;
        assert e == Edge(p[|p| - 1], id);
        hide IsPath;
        PathGrows(t, p, id);
      }
      if p :| IsPath(t, p) && |p| == k + 1 && p[k] == id {
        PathShrinks(t, p);
        hide IsPath;
        assert p[..k][k - 1] == p[k - 1];
        ReachInIsPath(t, p[k - 1], k - 1);
        assert Edge(p[k - 1], p[k]).source == p[k - 1];
      }
    }
  }

  ghost predicate NoRepeats(s: seq<string>) {
    forall i, j :: 0 <= i < j < |s| ==> s[i] != s[j]
  }

  /** Group `k` counted from 0: exactly the nodes at distance `k`. */
  ghost predicate IsLayer(t: Topology, g: Group, k: nat) {
    && g.caption == Layer(k + 1) && g.ids != []
    && (forall v :: v in g.ids <==> AtDistance(t, v, k))
    && (k > 0 ==> NoRepeats(g.ids))
  }

  ghost predicate LayersSoFar(t: Topology, layers: seq<Group>) {
    forall k: nat :: k < |layers| ==> IsLayer(t, layers[k], k)
  }

  /** The first `n` groups are the breadth-first layers, a last one holds what is unreachable. */
  ghost predicate Layered(t: Topology, gs: seq<Group>, n: nat) {
    && n <= |gs| <= n + 1
    && LayersSoFar(t, gs[..n])
    && (forall v, k: nat :: AtDistance(t, v, k) ==> k < n)
    && (|gs| == n ==> forall v <- t.nodes :: Reachable(t, v))
    && (|gs| == n + 1 ==> gs[n].caption == Ungrouped && gs[n].ids != []
                          && forall v :: v in gs[n].ids <==> v in t.nodes && !Reachable(t, v))
  }

  lemma DistanceIsUnique(t: Topology, id: string, j: nat, k: nat)
    requires AtDistance(t, id, j) && AtDistance(t, id, k)
    ensures j == k
  {
  }

  lemma {:induction false} DistanceExists(t: Topology, id: string, k: nat) returns (d: nat)
    requires ReachIn(t, id, k)
    ensures d <= k && AtDistance(t, id, d)
    decreases k
  {
    if j: nat :| j < k && ReachIn(t, id, j) {
      d := DistanceExists(t, id, j);
    } else {
      d := k;
    }
  }

  lemma ReachedIsNode(t: Topology, id: string, k: nat)
    requires ReachIn(t, id, k)
    ensures id in t.nodes
  {
  }

  /** Every node id lands in exactly one group. */
  lemma EveryNodeInOneGroup(t: Topology, gs: seq<Group>, n: nat, id: string)
    requires Layered(t, gs, n) && id in t.nodes
    ensures exists i :: 0 <= i < |gs| && id in gs[i].ids && forall j :: 0 <= j < |gs| && id in gs[j].ids ==> j == i
  {
    if Reachable(t, id) {
      var k: nat :| ReachIn(t, id, k);
      var d := DistanceExists(t, id, k);
      assert id in gs[d].ids;
      forall j: nat | j < |gs| && id in gs[j].ids ensures j == d {
        if j < n { DistanceIsUnique(t, id, j, d); }
      }
    } else {
      assert id in gs[n].ids;
      forall j: nat | j < n ensures id !in gs[j].ids {
        assert id in gs[j].ids ==> AtDistance(t, id, j);
      }
    }
  }

  /** A node at distance k + 1 hangs on one at distance k. */
  lemma PredecessorAtDistance(t: Topology, id: string, k: nat)
    requires AtDistance(t, id, k + 1)
    ensures exists e <- t.edges :: e.target == id && AtDistance(t, e.source, k)
  {
    var e :| e in t.edges && e.target == id && ReachIn(t, e.source, k);
    var d := DistanceExists(t, e.source, k);
    assert ReachIn(t, id, d + 1);
    assert d == k;
  }

  lemma {:induction false} LayersAreContiguous(t: Topology, id: string, k: nat, n: nat)
    requires AtDistance(t, id, k) && n <= k
    ensures exists v :: AtDistance(t, v, n)
    decreases k
  {
    if n < k {
      PredecessorAtDistance(t, id, k - 1);
      var e :| e in t.edges && e.target == id && AtDistance(t, e.source, k - 1);
      LayersAreContiguous(t, e.source, k - 1, n);
    }
  }

  ghost predicate IndexOk(t: Topology, inherited: set<string>) {
    forall e <- t.edges :: e.source !in inherited
  }

  /** When the grouping fails: an edge out of, or a visited node with, an inherited name. */
  ghost predicate Fails(t: Topology, inherited: set<string>) {
    && t.phases == []
    && (!IndexOk(t, inherited) || exists v <- inherited :: Reachable(t, v))
  }

  // ------------------------------------------------------------- the function

  /** `outgoing`, or None where an inherited member gets in the way. */
  method IndexEdges(edges: seq<Edge>, inherited: set<string>)
    returns (ok: bool, hasIncoming: set<string>, outgoing: map<string, seq<string>>)
    ensures ok <==> forall e <- edges :: e.source !in inherited
    ensures ok ==> forall id :: id in hasIncoming <==> HasIncoming(edges, id)
    ensures ok ==> forall s, v :: (s in outgoing && v in outgoing[s]) <==> Edge(s, v) in edges
  {
    ok, hasIncoming, outgoing := true, {}, map[];
    for i := 0 to |edges|
      invariant ok && forall j :: 0 <= j < i ==> edges[j].source !in inherited
      invariant forall id :: id in hasIncoming <==> HasIncoming(edges[..i], id)
      invariant forall s, v :: (s in outgoing && v in outgoing[s]) <==> Edge(s, v) in edges[..i]
    {
      var e := edges[i];
      assert edges[..i + 1] == edges[..i] + [e];
      ghost var before := edges[..i + 1];
      if e.target !in TERMINALS { hasIncoming := hasIncoming + {e.target}; }
      forall id ensures id in hasIncoming <==> HasIncoming(edges[..i + 1], id) {
        if id == e.target && id !in TERMINALS { assert before[i].target == id; }
        if HasIncoming(edges[..i], id) {
          var j :| 0 <= j < i && edges[..i][j].target == id;
          assert before[j].target == id;
        }
      }
      if e.source in inherited {
        ok := false;
        assert e in edges;
        return;
      }
      if e.source !in outgoing { outgoing := outgoing[e.source := []]; }
      outgoing := outgoing[e.source := outgoing[e.source] + [e.target]];
    }
    assert edges[..|edges|] == edges;
  }

  /** The ids left when those in `drop` are taken out, in order. */
  function Without(ids: seq<string>, drop: set<string>): (r: seq<string>)
    ensures forall v :: v in r <==> v in ids && v !in drop
    ensures NoRepeats(ids) ==> NoRepeats(r)
    ensures (forall v <- ids :: v !in drop) ==> r == ids
  {
    if ids == [] then []
    else
      var rest := Without(ids[1..], drop);
      assert ids == [ids[0]] + ids[1..];
      if ids[0] in drop then rest else [ids[0]] + rest
  }

  /** The next frontier: unvisited nodes one edge away, each once. */
  method Expand(nodeIds: set<string>, outgoing: map<string, seq<string>>, visited: set<string>, layer: seq<string>,
                inherited: set<string>)
    returns (ok: bool, next: seq<string>)
    ensures ok <==> forall v <- layer :: v !in inherited
    ensures NoRepeats(next)
    ensures ok ==> forall v ::
              v in next <==> v !in visited && v in nodeIds && exists u <- layer :: u in outgoing && v in outgoing[u]
  {
    ok, next := true, [];
    for i := 0 to |layer|
      invariant ok && forall j :: 0 <= j < i ==> layer[j] !in inherited
      invariant NoRepeats(next)
      invariant forall v ::
                  v in next <==>
                    && v !in visited && v in nodeIds
                    && exists j :: 0 <= j < i && layer[j] in outgoing && v in outgoing[layer[j]]
    {
      if layer[i] in inherited {
        ok := false;
        return;
      }
      var targets := if layer[i] in outgoing then outgoing[layer[i]] else [];
      ghost var before := next;
      for k := 0 to |targets|
        invariant NoRepeats(next)
        invariant forall v :: v in next <==> v in before || (v in targets[..k] && v !in visited && v in nodeIds)
      {
        var v := targets[k];
        assert targets[..k + 1] == targets[..k] + [v];
        if v !in visited && v in nodeIds && v !in next { next := next + [v]; }
      }
      assert targets[..|targets|] == targets;
    }
  }

  lemma NextLayer(t: Topology, visited: set<string>, layer: seq<string>, next: seq<string>, n: nat)
    requires forall v :: v in visited <==> exists k: nat :: k <= n && AtDistance(t, v, k)
    requires forall v :: v in layer <==> AtDistance(t, v, n)
    requires forall v :: v in next <==> v !in visited && v in t.nodes && exists u <- layer :: Edge(u, v) in t.edges
    ensures forall v :: v in next <==> AtDistance(t, v, n + 1)
  {
    forall v ensures v in next <==> AtDistance(t, v, n + 1) {
      if v in next {
        var u :| u in layer && Edge(u, v) in t.edges;
        assert Edge(u, v).target == v && ReachIn(t, Edge(u, v).source, n);
        assert ReachIn(t, v, n + 1);
        var d := DistanceExists(t, v, n + 1);
        assert d == n + 1;
      }
      if AtDistance(t, v, n + 1) {
        PredecessorAtDistance(t, v, n);
        var e :| e in t.edges && e.target == v && AtDistance(t, e.source, n);
        assert e == Edge(e.source, v) && e.source in layer;
      }
    }
  }

  /** What the search knows before it pushes layer `n`. */
  ghost predicate Front(t: Topology, visited: set<string>, frontier: seq<string>, n: nat, inherited: set<string>) {
    && (forall v :: v in frontier <==> AtDistance(t, v, n))
    && (forall v :: v in visited <==> exists k: nat :: k < n && AtDistance(t, v, k))
    && (n > 0 ==> NoRepeats(frontier))
    && forall v <- visited :: v !in inherited
  }

  lemma FrontIsNew(t: Topology, visited: set<string>, frontier: seq<string>, n: nat, inherited: set<string>)
    requires Front(t, visited, frontier, n, inherited)
    ensures forall v <- frontier :: v !in visited && v in t.nodes
  {
    forall v <- frontier ensures v !in visited && v in t.nodes {
      ReachedIsNode(t, v, n);
    }
  }

  /** The successors of every source, exactly. */
  ghost predicate Indexed(outgoing: map<string, seq<string>>, edges: seq<Edge>) {
    forall s, v :: (s in outgoing && v in outgoing[s]) <==> Edge(s, v) in edges
  }

  lemma FrontMoves(t: Topology, visited: set<string>, frontier: seq<string>, outgoing: map<string, seq<string>>,
                   seen: set<string>, next: seq<string>, n: nat, inherited: set<string>)
    requires Front(t, visited, frontier, n, inherited) && NoRepeats(next)
    requires Indexed(outgoing, t.edges)
    requires seen == visited + set v <- frontier
    requires forall v <- frontier :: v !in inherited
    requires forall v ::
               v in next <==> v !in seen && v in t.nodes && exists u <- frontier :: u in outgoing && v in outgoing[u]
    ensures Front(t, seen, next, n + 1, inherited)
  {
    forall v ensures v in seen <==> exists k: nat :: k <= n && AtDistance(t, v, k) {
    }
    NextLayer(t, seen, frontier, next, n);
  }

  lemma NothingBeyond(t: Topology, n: nat)
    requires forall v :: !AtDistance(t, v, n)
    ensures forall v, k: nat :: AtDistance(t, v, k) ==> k < n
  {
    forall v, k: nat | AtDistance(t, v, k) ensures k < n {
      if n <= k { LayersAreContiguous(t, v, k, n); }
    }
  }

  lemma NoRootsNothingReached(t: Topology)
    requires forall v :: !IsRoot(t, v)
    ensures forall v :: !Reachable(t, v)
  {
    forall v ensures !Reachable(t, v) {
      if k: nat :| ReachIn(t, v, k) {
        ReachInIsPath(t, v, k);
      }
    }
  }

  lemma VisitedIsReachable(t: Topology, visited: set<string>, n: nat)
    requires forall v :: v in visited <==> exists k: nat :: k < n && AtDistance(t, v, k)
    requires forall v, k: nat :: AtDistance(t, v, k) ==> k < n
    ensures forall v :: v in visited <==> Reachable(t, v)
  {
    forall v ensures v in visited <==> Reachable(t, v) {
      if Reachable(t, v) {
        var k: nat :| ReachIn(t, v, k);
        var d := DistanceExists(t, v, k);
      }
    }
  }

  method FallbackPhases(t: Topology, inherited: set<string>) returns (r: Outcome)
    ensures r.TypeError? <==> Fails(t, inherited)
    ensures t.phases != [] ==> r == Groups(t.phases)
    ensures r.Groups? && t.phases == [] && (forall v :: !IsRoot(t, v)) ==> r.groups == [Group(AllNodes, t.nodes)]
    ensures r.Groups? && t.phases == [] && (exists v :: IsRoot(t, v)) ==> exists n :: Layered(t, r.groups, n)
  {
    if t.phases != [] { return Groups(t.phases); }
    var ok, hasIncoming, outgoing := IndexEdges(t.edges, inherited);
    if !ok { return TypeError; }
    var roots := Without(t.nodes, hasIncoming);
    assert forall v :: v in roots <==> IsRoot(t, v);
    if roots == [] {
      NoRootsNothingReached(t);
      return Groups([Group(AllNodes, t.nodes)]);
    }
    assert IsRoot(t, roots[0]);
    r := Layers(t, roots, outgoing, inherited);
  }

  method Layers(t: Topology, roots: seq<string>, outgoing: map<string, seq<string>>, inherited: set<string>)
    returns (r: Outcome)
    requires roots != [] && (forall v :: v in roots <==> IsRoot(t, v)) && Indexed(outgoing, t.edges)
    ensures r.TypeError? <==> exists v <- inherited :: Reachable(t, v)
    ensures r.Groups? ==> exists n :: Layered(t, r.groups, n)
  {
    var nodeIds := set v <- t.nodes;
    var layers, visited, frontier := [], {}, roots;
    while frontier != []
      invariant visited <= nodeIds
      invariant Front(t, visited, frontier, |layers|, inherited)
      invariant LayersSoFar(t, layers)
      decreases nodeIds - visited
    {
      FrontIsNew(t, visited, frontier, |layers|, inherited);
      LayerPushed(t, layers, visited, frontier, inherited);
      var layerIds := Without(frontier, visited);
      if layerIds == [] { break; }
      assert layerIds == frontier;
      layers := layers + [Group(Layer(|layers| + 1), layerIds)];
      assert layerIds[0] in nodeIds - visited;
      var ok;
      ok, visited, frontier := Deepen(t, nodeIds, outgoing, visited, layerIds, |layers| - 1, inherited);
      if !ok { return TypeError; }
    }
    r := WithUngrouped(t, layers, visited, inherited);
  }

  /** Mark a layer visited and find the next frontier. */
  method Deepen(t: Topology, nodeIds: set<string>, outgoing: map<string, seq<string>>, visited: set<string>,
                layer: seq<string>, n: nat, inherited: set<string>)
    returns (ok: bool, seen: set<string>, next: seq<string>)
    requires Indexed(outgoing, t.edges) && Front(t, visited, layer, n, inherited) && nodeIds == set v <- t.nodes
    ensures seen == visited + set v <- layer
    ensures if ok then Front(t, seen, next, n + 1, inherited) else exists v <- inherited :: Reachable(t, v)
  {
    seen := visited + set v <- layer;
    ok, next := Expand(nodeIds, outgoing, seen, layer, inherited);
    if ok {
      FrontMoves(t, visited, layer, outgoing, seen, next, n, inherited);
    } else {
      VisitedNameFails(t, visited, layer, n, inherited);
    }
  }

  method WithUngrouped(t: Topology, layers: seq<Group>, visited: set<string>, inherited: set<string>)
    returns (r: Outcome)
    requires LayersSoFar(t, layers) && Front(t, visited, [], |layers|, inherited)
    ensures r.Groups? && Layered(t, r.groups, |layers|)
    ensures forall v <- inherited :: !Reachable(t, v)
  {
    var unvisited := Without(t.nodes, visited);
    SearchEnds(t, layers, visited, unvisited, inherited);
    r := Groups(if unvisited == [] then layers else layers + [Group(Ungrouped, unvisited)]);
  }

  lemma LayerPushed(t: Topology, layers: seq<Group>, visited: set<string>, frontier: seq<string>,
                    inherited: set<string>)
    requires Front(t, visited, frontier, |layers|, inherited) && LayersSoFar(t, layers) && frontier != []
    ensures LayersSoFar(t, layers + [Group(Layer(|layers| + 1), frontier)])
  {
  }

  lemma VisitedNameFails(t: Topology, visited: set<string>, frontier: seq<string>, n: nat, inherited: set<string>)
    requires Front(t, visited, frontier, n, inherited) && exists v <- frontier :: v in inherited
    ensures exists v <- inherited :: Reachable(t, v)
  {
    var v :| v in frontier && v in inherited;
    assert ReachIn(t, v, n);
  }

  lemma SearchEnds(t: Topology, layers: seq<Group>, visited: set<string>, unvisited: seq<string>,
                   inherited: set<string>)
    requires LayersSoFar(t, layers) && Front(t, visited, [], |layers|, inherited)
    requires forall v :: v in unvisited <==> v in t.nodes && v !in visited
    ensures Layered(t, if unvisited == [] then layers else layers + [Group(Ungrouped, unvisited)], |layers|)
    ensures forall v <- inherited :: !Reachable(t, v)
  {
    var n := |layers|;
    NothingBeyond(t, n);
    VisitedIsReachable(t, visited, n);
    assert layers[..n] == layers == (layers + [Group(Ungrouped, unvisited)])[..n];
    if unvisited != [] {
      assert unvisited[0] in unvisited;
    } else {
      forall v <- t.nodes ensures Reachable(t, v) { assert v !in unvisited; }
    }
  }
}
