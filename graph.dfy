/** The graph store and its operations (src/graph.js): the `Node` and `Graph`
    classes, the id counter, Bellman-Ford route search, the path totals, the
    highlight rule and the two-click selection of `handleNodeClick`. */
module GraphStore {
  import opened Wrappers
  import opened Routes
  import opened PathCost
  import opened Transfers

  /** The static `Node.idCounter` (src/graph.js:357-360).  It starts undefined,
      which `generateId` reads as 0; here it is an object handed to whoever
      creates nodes. */
  class IdCounter {
    var idCounter: nat

    constructor ()
      ensures idCounter == 0
    {
      idCounter := 0;
    }

    /** `Node.generateId()`: hands out the current value and moves past it. */
    method GenerateId() returns (id: nat)
      modifies this
      ensures id == old(idCounter) && idCounter == old(idCounter) + 1
    {
      id := idCounter;
      idCounter := idCounter + 1;
    }
  }

  /** A stop (src/graph.js:317-398).  Shape, size and colour are display-only. */
  class Node {
    const id: nat
    const name: string  // the source's `label`
    var lineCount: nat
    var lines: seq<string>

    constructor (counter: IdCounter, stopName: string)
      modifies counter
      ensures id == old(counter.idCounter) && counter.idCounter == old(counter.idCounter) + 1
      ensures name == stopName && lineCount == 1 && lines == []
    {
      var newId := counter.GenerateId();
      id := newId;
      name := stopName;
      lineCount := 1;
      lines := [];
    }

    method IncrementLineCount()
      modifies this
      ensures lineCount == old(lineCount) + 1 && lines == old(lines)
    {
      lineCount := lineCount + 1;
    }

    /** Appends `line` unless it is already listed, so `lines` stays free of
        duplicates and keeps first-seen order. */
    method AddLine(line: string)
      modifies this
      ensures lines == if line in old(lines) then old(lines) else old(lines) + [line]
      ensures NoDuplicates(old(lines)) ==> NoDuplicates(lines)
      ensures line in lines && forall l :: l in lines <==> l in old(lines) || l == line
      ensures lineCount == old(lineCount)
    {
      if line !in lines {
        lines := lines + [line];
      }
    }
  }

  predicate NoDuplicates<T(==)>(s: seq<T>)
  {
    forall i, j :: 0 <= i < j < |s| ==> s[i] != s[j]
  }

  /** The ids of the nodes in `ns`. */
  function NodeIds(ns: seq<Node>): set<nat>
  {
    set n | n in ns :: n.id
  }

  /** The label index `addNode` builds: each added node maps its label to its id,
      a later node overwriting an earlier one with the same label. */
  function LabelIndex(ns: seq<Node>): map<string, nat>
    decreases |ns|
  {
    if ns == [] then map[] else LabelIndex(ns[..|ns| - 1])[ns[|ns| - 1].name := ns[|ns| - 1].id]
  }

  /** The last node carrying a label the index holds, and its id is the one
      the index maps the label to. */
  lemma {:induction false} LabelIndexAt(ns: seq<Node>, l: string) returns (i: nat)
    requires l in LabelIndex(ns)
    ensures i < |ns| && ns[i].name == l && ns[i].id == LabelIndex(ns)[l]
    ensures forall j :: i < j < |ns| ==> ns[j].name != l
    decreases |ns|
  {
    var n := |ns|;
    if ns[n - 1].name == l {
      i := n - 1;
    } else {
      var pre := ns[..n - 1];
      i := LabelIndexAt(pre, l);
      assert forall j :: i < j < n - 1 ==> ns[j] == pre[j];
    }
  }

  /** Every node's label is in the index. */
  lemma {:induction false} LabelIndexHasName(ns: seq<Node>, i: nat)
    requires i < |ns|
    ensures ns[i].name in LabelIndex(ns)
    decreases |ns|
  {
    var n := |ns|;
    if i < n - 1 {
      var pre := ns[..n - 1];
      LabelIndexHasName(pre, i);
      assert pre[i] == ns[i];
    }
  }

  /** The index holds every label, and maps it to the id of the LAST node that
      carries it. */
  lemma LabelIndexIsLastWins(ns: seq<Node>)
    ensures forall l :: l in LabelIndex(ns) <==> exists i :: 0 <= i < |ns| && ns[i].name == l
    ensures forall l :: l in LabelIndex(ns) ==>
      exists i :: 0 <= i < |ns| && ns[i].name == l && ns[i].id == LabelIndex(ns)[l]
                  && forall j :: i < j < |ns| ==> ns[j].name != l
  {
    forall l | l in LabelIndex(ns)
      ensures exists i :: 0 <= i < |ns| && ns[i].name == l && ns[i].id == LabelIndex(ns)[l]
                          && forall j :: i < j < |ns| ==> ns[j].name != l
    {
      var i := LabelIndexAt(ns, l);
    }
    forall l | exists i :: 0 <= i < |ns| && ns[i].name == l
      ensures l in LabelIndex(ns)
    {
      var i :| 0 <= i < |ns| && ns[i].name == l;
      LabelIndexHasName(ns, i);
    }
  }

  /** Every id the index hands out belongs to a node of `ns`. */
  lemma LabelIndexInIds(ns: seq<Node>, l: string)
    requires l in LabelIndex(ns)
    ensures LabelIndex(ns)[l] in NodeIds(ns)
  {
    LabelIndexIsLastWins(ns);
    var i :| 0 <= i < |ns| && ns[i].name == l && ns[i].id == LabelIndex(ns)[l]
             && forall j :: i < j < |ns| ==> ns[j].name != l;
    assert ns[i] in ns;
  }

  /** `nodes.find(n => n.id === id)`, as an index. */
  function FindById(ns: seq<Node>, id: nat): (r: Option<nat>)
    ensures r.Some? ==> r.value < |ns| && ns[r.value].id == id
    ensures r.Some? ==> forall k :: 0 <= k < r.value ==> ns[k].id != id
    ensures r.None? <==> id !in NodeIds(ns)
    decreases |ns|
  {
    if ns == [] then None
    else
      var r := FindById(ns[..|ns| - 1], id);
      assert NodeIds(ns) == NodeIds(ns[..|ns| - 1]) + {ns[|ns| - 1].id} by {
        assert ns == ns[..|ns| - 1] + [ns[|ns| - 1]];
      }
      if r.Some? then r
      else if ns[|ns| - 1].id == id then Some(|ns| - 1)
      else None
  }

  /** The line lists `handleNodeClick` gathers for a route (src/graph.js:504-512):
      the lines of the first node with each id, skipping ids with no node. */
  function LineLists(ns: seq<Node>, path: seq<nat>): seq<seq<string>>
    reads ns
    decreases |path|
  {
    if path == [] then []
    else
      LineLists(ns, path[..|path| - 1])
      + match FindById(ns, path[|path| - 1])
        case Some(k) => [ns[k].lines]
        case None => []
  }

  /** When every id on the route is a node, stop `i` of the route gets the lines
      of that node: the list and the route stay aligned. */
  lemma {:induction false} LineListsAligned(ns: seq<Node>, path: seq<nat>)
    requires forall i :: 0 <= i < |path| ==> path[i] in NodeIds(ns)
    ensures |LineLists(ns, path)| == |path|
    ensures forall i :: 0 <= i < |path| ==> LineLists(ns, path)[i] == ns[FindById(ns, path[i]).value].lines
    decreases |path|
  {
    if path != [] {
      LineListsAligned(ns, path[..|path| - 1]);
    }
  }

  /** What a click leads to; the source reports these through console and DOM
      writes, which are not modelled. */
  datatype ClickOutcome =
    | NothingClicked
    | UnknownNode(id: nat)
    | StartSelected
    | RouteShown(path: seq<nat>, numberOfChanges: nat, totalTime: int)
    | NoRouteFound
    | LineLookupThrew

  /** The graph (src/graph.js:24-307): nodes and edges in insertion order, the
      label index, and the start node of a pending two-click selection. */
  class Graph {
    var nodes: seq<Node>
    var edges: seq<Edge>
    var selectedStartNode: Node?
    var nodeMap: map<string, nat>

    ghost predicate Valid()
      reads this
    {
      && nodeMap == LabelIndex(nodes)
      && (forall j :: 0 <= j < |nodes| ==> nodes[j].name in nodeMap)
      && (selectedStartNode != null ==> selectedStartNode in nodes)
    }

    constructor ()
      ensures Valid()
      ensures nodes == [] && edges == [] && selectedStartNode == null && nodeMap == map[]
    {
      nodes := [];
      edges := [];
      selectedStartNode := null;
      nodeMap := map[];
    }

    /** `addNode` (src/graph.js:68-71): appends the node and points its label at
        it, overwriting an earlier node with the same label. */
    method AddNode(node: Node)
      requires Valid()
      modifies this
      ensures Valid()
      ensures nodes == old(nodes) + [node]
      ensures nodeMap == old(nodeMap)[node.name := node.id]
      ensures edges == old(edges) && selectedStartNode == old(selectedStartNode)
    {
      nodes := nodes + [node];
      nodeMap := nodeMap[node.name := node.id];
      assert nodes[..|nodes| - 1] == old(nodes);
    }

    /** `addEdge` (src/graph.js:90-92): appends, with no uniqueness check. */
    method AddEdge(edge: Edge)
      modifies this
      ensures edges == old(edges) + [edge]
      ensures nodes == old(nodes) && nodeMap == old(nodeMap) && selectedStartNode == old(selectedStartNode)
    {
      edges := edges + [edge];
    }

    /** `findShortestPath` (src/graph.js:114-178).  It answers `None` (the
        source's `null`) for an unknown label, for an edge that still relaxes
        after the passes, and for an end the start cannot reach; otherwise the
        route it returns is a shortest one, read off the predecessors. */
    method FindShortestPath(startLabel: string, endLabel: string) returns (path: Option<seq<nat>>)
      requires Valid()
      ensures startLabel !in nodeMap || endLabel !in nodeMap ==> path == None
      ensures startLabel in nodeMap && endLabel in nodeMap ==>
        var ids := NodeIds(nodes);
        var s, e := nodeMap[startLabel], nodeMap[endLabel];
        && s in ids && e in ids
        && var t := AfterPasses(ids, |nodes|, edges, s);
           && (path.Some? <==> Stable(t.dist, edges) && Reachable(ids, edges, s, e))
           && (path.Some? ==> ShortestRoute(ids, edges, path.value, s, e))
           && (path.Some? ==> forall i :: 1 <= i < |path.value| ==> path.value[i] in t.pred && t.pred[path.value[i]] == Some(path.value[i - 1]))
    {
      if startLabel !in nodeMap || endLabel !in nodeMap {
        return None;
      }
      var startId, endId := nodeMap[startLabel], nodeMap[endLabel];
      LabelIndexInIds(nodes, startLabel);
      LabelIndexInIds(nodes, endLabel);
      var es := edges;
      ghost var ids := NodeIds(nodes);

      var distances, predecessors := InitialTables(nodes, startId);
      distances, predecessors := RelaxationPasses(distances, predecessors, es, |nodes|);
      ghost var t := Table(distances, predecessors);
      PassesKeepInv(ids, startId, es, PassCount(|nodes|));

      var relaxable := HasRelaxableEdge(distances, es);
      if relaxable {
        return None;
      }

      var p := FollowPredecessors(ids, startId, es, distances, predecessors, endId);
      ghost var reached := Reachable(ids, es, startId, endId);
      if reached {
        var ws :| IsWalk(ids, es, ws, startId, endId);
        assert distances[startId].Fin? by {
          if predecessors[startId].Some? {
            assert Linked(es, distances, predecessors[startId].value, startId);
          }
        }
        WalkBound(ids, es, distances, ws, startId, endId);
        ChainStartsAtStart(ids, startId, es, t, p);
      }
      if p[0] != startId {
        return None;
      }
      ReconstructedIsShortest(ids, startId, es, t, p);
      path := Some(p);
    }

    /** `printTime` (src/graph.js:194-212) without its display: the sum, over
        consecutive stops, of the first matching edge's time. */
    method PrintTime(path: seq<nat>) returns (totalTime: int)
      ensures totalTime == TimeAlong(edges, path)
    {
      totalTime := 0;
      var i := 0;
      while i + 1 < |path|
        invariant |path| == 0 ==> i == 0
        invariant |path| > 0 ==> i < |path|
        invariant totalTime == TimeAlong(edges, path[..if |path| == 0 then 0 else i + 1])
      {
        var edge := FirstEdge(edges, path[i], path[i + 1]);
        if edge.Some? {
          totalTime := totalTime + edges[edge.value].time;
        }
        assert path[..i + 2][..i + 1] == path[..i + 1];
        i := i + 1;
      }
      assert path[..if |path| == 0 then 0 else i + 1] == path;
    }

    /** `printTimeWithChanges` (src/graph.js:229-249) without its display: the
        same sum plus two minutes for every change of line. */
    method PrintTimeWithChanges(path: seq<nat>, numberOfChanges: nat) returns (totalTime: int)
      ensures totalTime == TimeAlong(edges, path) + 120 * numberOfChanges
    {
      totalTime := PrintTime(path);
      totalTime := totalTime + numberOfChanges * 2 * 60;
    }

    /** The edges `highlightPath` (src/graph.js:266-282) colours: those joining
        two consecutive stops of the route, in either direction.  The colour
        writes themselves are not modelled. */
    method HighlightPath(path: seq<nat>) returns (blue: set<nat>)
      ensures forall k :: k in blue <==> 0 <= k < |edges| && OnPath(edges[k], path)
    {
      blue := {};
      var i := 0;
      while i + 1 < |path|
        invariant 0 <= i && (|path| > 0 ==> i < |path|)
        invariant forall k :: k in blue <==> 0 <= k < |edges| && exists x :: 0 <= x < i && HopMatches(edges[k], path, x)
      {
        var k := 0;
        while k < |edges|
          invariant 0 <= k <= |edges|
          invariant forall k' :: k' in blue <==> (0 <= k' < |edges| &&
            ((exists x :: 0 <= x < i && HopMatches(edges[k'], path, x)) || (k' < k && HopMatches(edges[k'], path, i))))
        {
          var edge := edges[k];
          if (edge.from == path[i] && edge.to == path[i + 1]) || (edge.from == path[i + 1] && edge.to == path[i]) {
            blue := blue + {k};
          }
          k := k + 1;
        }
        i := i + 1;
      }
      forall k | 0 <= k < |edges| ensures OnPath(edges[k], path) <==> exists x :: 0 <= x < i && HopMatches(edges[k], path, x) {
        if OnPath(edges[k], path) {
          var x :| 0 <= x < |path| - 1 && ((edges[k].from == path[x] && edges[k].to == path[x + 1]) || (edges[k].from == path[x + 1] && edges[k].to == path[x]));
          assert HopMatches(edges[k], path, x);
        }
      }
    }

    /** The lines of each stop on the route (src/graph.js:502-512). */
    method CollectLines(path: seq<nat>) returns (lineList: seq<seq<string>>)
      ensures lineList == LineLists(nodes, path)
    {
      lineList := [];
      var i := 0;
      while i < |path|
        invariant 0 <= i <= |path|
        invariant lineList == LineLists(nodes, path[..i])
      {
        var node := FindById(nodes, path[i]);
        if node.Some? {
          lineList := lineList + [nodes[node.value].lines];
        }
        assert path[..i + 1][..i] == path[..i];
        i := i + 1;
      }
      assert path[..i] == path;
    }

    /** What the second click of a selection may show for the stops with ids
        `s` and `e` (the ids the label index gives their labels): no route
        exactly when an edge still relaxes or `e` is unreachable; otherwise a
        shortest route, its transfer count and its total, unless the line
        lookup throws, which happens exactly when the route is the single stop
        `s == e` and that stop has two or more lines. */
    ghost predicate RouteOutcome(outcome: ClickOutcome, s: nat, e: nat)
      reads this, nodes
    {
      var ids := NodeIds(nodes);
      && s in ids
      && (outcome.RouteShown? || outcome.NoRouteFound? || outcome.LineLookupThrew?)
      && var t := AfterPasses(ids, |nodes|, edges, s);
         && (outcome.NoRouteFound? <==> !(Stable(t.dist, edges) && Reachable(ids, edges, s, e)))
         && (outcome.LineLookupThrew? <==>
               Stable(t.dist, edges) && Reachable(ids, edges, s, e) && s == e
               && NumberOfChanges(LineLists(nodes, [s])).None?)
         && (outcome.RouteShown? ==>
               && ShortestRoute(ids, edges, outcome.path, s, e)
               && NumberOfChanges(LineLists(nodes, outcome.path)) == Some(outcome.numberOfChanges)
               && outcome.numberOfChanges < |outcome.path|
               && outcome.totalTime == TimeAlong(edges, outcome.path) + 120 * outcome.numberOfChanges)
    }

    /** The second-click branch of `handleNodeClick` (src/graph.js:487-551)
        up to, but not including, clearing the selection. */
    method RouteBetween(startNode: Node, endNode: Node) returns (outcome: ClickOutcome)
      requires Valid() && startNode in nodes && endNode in nodes
      ensures RouteOutcome(outcome, nodeMap[startNode.name], nodeMap[endNode.name])
    {
      var path := FindShortestPath(startNode.name, endNode.name);
      if path.None? {
        return NoRouteFound;
      }
      var route := path.value;
      RouteNodesInIds(NodeIds(nodes), edges, route, nodeMap[startNode.name], nodeMap[endNode.name]);
      SelfRouteIsSingleton(NodeIds(nodes), edges, route, nodeMap[startNode.name], nodeMap[endNode.name]);
      var lineList := CollectLines(route);
      LineListsAligned(nodes, route);
      var changes := CountTransfers(lineList);
      if changes.None? {
        return LineLookupThrew;
      }
      ChangesAtMostHops(lineList);
      var totalTime := PrintTimeWithChanges(route, changes.value);
      outcome := RouteShown(route, changes.value, totalTime);
    }

    /** `handleNodeClick` (src/graph.js:470-557) as a state machine over
        `selectedStartNode`.  An empty click or an unknown id changes nothing; a
        first click stores the node; a second click searches a route between the
        two labels and clears the selection whatever the outcome, except when the
        line lookup throws (the `TypeError` skips src/graph.js:553). */
    method HandleNodeClick(clicked: seq<nat>) returns (outcome: ClickOutcome)
      requires Valid()
      modifies this`selectedStartNode
      ensures Valid()
      ensures clicked == [] ==> outcome == NothingClicked && selectedStartNode == old(selectedStartNode)
      ensures clicked != [] && FindById(nodes, clicked[0]).None? ==>
        outcome == UnknownNode(clicked[0]) && selectedStartNode == old(selectedStartNode)
      ensures clicked != [] && FindById(nodes, clicked[0]).Some? && old(selectedStartNode) == null ==>
        outcome == StartSelected && selectedStartNode == nodes[FindById(nodes, clicked[0]).value]
      ensures clicked != [] && FindById(nodes, clicked[0]).Some? && old(selectedStartNode) != null ==>
        && RouteOutcome(outcome, nodeMap[old(selectedStartNode).name], nodeMap[nodes[FindById(nodes, clicked[0]).value].name])
        && selectedStartNode == (if outcome.LineLookupThrew? then old(selectedStartNode) else null)
    {
      if |clicked| == 0 {
        return NothingClicked;
      }
      var selectedNodeId := clicked[0];
      var found := FindById(nodes, selectedNodeId);
      if found.None? {
        return UnknownNode(selectedNodeId);
      }
      var selectedNode := nodes[found.value];
      if selectedStartNode == null {
        selectedStartNode := selectedNode;
        return StartSelected;
      }
      outcome := RouteBetween(selectedStartNode, selectedNode);
      if !outcome.LineLookupThrew? {
        selectedStartNode := null;
      }
    }
  }

  /** The initialisation (src/graph.js:126-134): every node infinitely far and
      without predecessor, then the start node at distance 0. */
  method InitialTables(ns: seq<Node>, startId: nat) returns (distances: map<nat, Dist>, predecessors: map<nat, Option<nat>>)
    requires startId in NodeIds(ns)
    ensures Table(distances, predecessors) == Init(NodeIds(ns), startId)
  {
    distances := map[];
    predecessors := map[];
    var j := 0;
    while j < |ns|
      invariant 0 <= j <= |ns|
      invariant distances.Keys == NodeIds(ns[..j]) && predecessors.Keys == NodeIds(ns[..j])
      invariant forall v :: v in distances ==> distances[v] == Inf
      invariant forall v :: v in predecessors ==> predecessors[v] == None
    {
      assert NodeIds(ns[..j + 1]) == NodeIds(ns[..j]) + {ns[j].id} by {
        assert ns[..j + 1] == ns[..j] + [ns[j]];
      }
      distances := distances[ns[j].id := Inf];
      predecessors := predecessors[ns[j].id := None];
      j := j + 1;
    }
    assert ns[..|ns|] == ns;
    distances := distances[startId := Fin(0)];
  }

  /** One `forEach` over the edges in stored order (src/graph.js:138-144). */
  method RelaxPass(distances0: map<nat, Dist>, predecessors0: map<nat, Option<nat>>, es: seq<Edge>)
    returns (distances: map<nat, Dist>, predecessors: map<nat, Option<nat>>)
    ensures Table(distances, predecessors) == Pass(Table(distances0, predecessors0), es)
  {
    distances, predecessors := distances0, predecessors0;
    var k := 0;
    while k < |es|
      invariant 0 <= k <= |es|
      invariant Table(distances, predecessors) == Pass(Table(distances0, predecessors0), es[..k])
    {
      var edge := es[k];
      if CanRelax(distances, edge) {
        distances := distances[edge.to := Fin(distances[edge.from].v + edge.time)];
        predecessors := predecessors[edge.to := Some(edge.from)];
      }
      assert es[..k + 1][..k] == es[..k];
      k := k + 1;
    }
    assert es[..|es|] == es;
  }

  /** The |V| - 1 passes of src/graph.js:137-145 for a graph of `n` nodes. */
  method RelaxationPasses(distances0: map<nat, Dist>, predecessors0: map<nat, Option<nat>>, es: seq<Edge>, n: nat)
    returns (distances: map<nat, Dist>, predecessors: map<nat, Option<nat>>)
    ensures Table(distances, predecessors) == Passes(Table(distances0, predecessors0), es, PassCount(n))
  {
    distances, predecessors := distances0, predecessors0;
    var i := 0;
    while i + 1 < n
      invariant 0 <= i <= PassCount(n)
      invariant Table(distances, predecessors) == Passes(Table(distances0, predecessors0), es, i)
    {
      distances, predecessors := RelaxPass(distances, predecessors, es);
      i := i + 1;
    }
  }

  /** The negative-cycle scan (src/graph.js:148-154): is there an edge that can
      still relax? */
  method HasRelaxableEdge(distances: map<nat, Dist>, es: seq<Edge>) returns (found: bool)
    ensures found <==> !Stable(distances, es)
  {
    var k := 0;
    while k < |es|
      invariant 0 <= k <= |es|
      invariant forall k' :: 0 <= k' < k ==> !CanRelax(distances, es[k'])
    {
      if CanRelax(distances, es[k]) {
        return true;
      }
      k := k + 1;
    }
    return false;
  }

  /** Path reconstruction (src/graph.js:157-162): follows predecessors back from
      `endId` until one is `null`.  The source's loop has no bound; on a stable
      table the predecessor graph has no cycle, so it ends, and the chain it
      builds repeats no node. */
  method FollowPredecessors(ghost ids: set<nat>, ghost start: nat, ghost es: seq<Edge>,
                            distances: map<nat, Dist>, predecessors: map<nat, Option<nat>>, endId: nat)
    returns (p: seq<nat>)
    requires Inv(ids, start, es, Table(distances, predecessors)) && Stable(distances, es) && endId in ids
    ensures |p| >= 1 && p[|p| - 1] == endId && p[0] in predecessors && predecessors[p[0]] == None
    ensures forall x :: 0 <= x < |p| ==> p[x] in ids
    ensures forall x :: 1 <= x < |p| ==> predecessors[p[x]] == Some(p[x - 1])
    ensures NoDuplicates(p)
  {
    p := [];
    var currentNode: Option<nat> := Some(endId);
    while currentNode.Some?
      invariant PredChain(predecessors, ids, p)
      invariant currentNode.Some? ==> currentNode.value in ids && currentNode.value !in p
      invariant p == [] ==> currentNode == Some(endId)
      invariant p != [] ==> p[|p| - 1] == endId && p[0] in predecessors && currentNode == predecessors[p[0]]
      decreases Unvisited(ids, p)
    {
      var c := currentNode.value;
      ChainPrepend(predecessors, ids, p, c);
      p := [c] + p;
      currentNode := predecessors[c];
      if currentNode.Some? {
        assert Linked(es, distances, currentNode.value, c);
        ChainStaysSimple(ids, start, es, Table(distances, predecessors), p);
      }
    }
  }

  /** `p` lists known nodes without repeats, each one's predecessor being the
      node before it. */
  ghost predicate PredChain(pred: map<nat, Option<nat>>, ids: set<nat>, p: seq<nat>)
  {
    && (forall x :: 0 <= x < |p| ==> p[x] in ids)
    && (forall x :: 1 <= x < |p| ==> p[x] in pred && pred[p[x]] == Some(p[x - 1]))
    && NoDuplicates(p)
  }

  ghost function Unvisited(ids: set<nat>, p: seq<nat>): set<nat>
  {
    ids - set x | x in p
  }

  /** Putting a node's predecessor in front keeps a chain a chain, and leaves
      fewer known nodes unvisited. */
  lemma ChainPrepend(pred: map<nat, Option<nat>>, ids: set<nat>, p: seq<nat>, c: nat)
    requires PredChain(pred, ids, p) && c in ids && c !in p
    requires p != [] ==> p[0] in pred && pred[p[0]] == Some(c)
    ensures PredChain(pred, ids, [c] + p)
    ensures Unvisited(ids, [c] + p) < Unvisited(ids, p)
  {
    var q := [c] + p;
    assert forall x :: 1 <= x < |q| ==> q[x] == p[x - 1];
    assert (set x | x in q) == (set x | x in p) + {c};
    assert c in Unvisited(ids, p);
    assert Unvisited(ids, q) == Unvisited(ids, p) - {c};
  }

  /** A shortest route only visits known nodes. */
  lemma RouteNodesInIds(ids: set<nat>, es: seq<Edge>, p: seq<nat>, a: nat, b: nat)
    requires ShortestRoute(ids, es, p, a, b)
    ensures forall x :: 0 <= x < |p| ==> p[x] in ids
  {
    var ws :| Follows(es, ws, p) && IsWalk(ids, es, ws, a, b)
              && forall ws2 :: IsWalk(ids, es, ws2, a, b) ==> WalkWeight(es, ws) <= WalkWeight(es, ws2);
    WalkNodesInIds(ids, es, ws, p);
  }

  /** Edge `e` joins stops `x` and `x + 1` of `p`, in either direction. */
  predicate HopMatches(e: Edge, p: seq<nat>, x: nat)
  {
    x + 1 < |p| && ((e.from == p[x] && e.to == p[x + 1]) || (e.from == p[x + 1] && e.to == p[x]))
  }

  /** The predecessor of a simple chain's first node is not already on the
      chain: the step that keeps the reconstruction loop going forward. */
  lemma ChainStaysSimple(ids: set<nat>, start: nat, es: seq<Edge>, t: Table, p: seq<nat>)
    requires Inv(ids, start, es, t) && Stable(t.dist, es)
    requires |p| >= 1 && p[0] in t.pred && t.pred[p[0]].Some?
    requires forall i :: 1 <= i < |p| ==> p[i] in t.pred && t.pred[p[i]] == Some(p[i - 1])
    ensures t.pred[p[0]].value !in p
  {
    var x := t.pred[p[0]].value;
    if j :| 0 <= j < |p| && p[j] == x {
      ClosingCycle(t.pred, p, x, j);
      StableHasNoPredCycle(ids, start, es, t, [x] + p[..j + 1]);
    }
  }
}
