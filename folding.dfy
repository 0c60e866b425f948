/** How `createNetwork` turns the stop and edge records into the graph
    (src/graph.js:583-640): stop records that share a name fold into one node,
    and each edge record becomes an edge between the nodes of its two stops.

    The fold is stated on values (`Fold`) and the method `CreateNetwork`, which
    builds the `Graph` and its `Node` objects in place, is proved against it.
    The source decides whether a name is new with `!nodeMap[name]`, which is
    also true for a name mapped to id 0; `FoldAsWritten` keeps that test and
    `Fold` uses the intended one. */
module Folding {
  import opened Wrappers
  import opened Routes
  import opened GraphStore

  /** A row of Sommet.csv as the page receives it: `ID`, `Nom` and `Line`
      (`Color` only styles the node). */
  datatype StopRecord = StopRecord(id: string, name: string, line: string)

  /** A row of Aretes.csv: `Sommet1`, `Sommet2` and `Time`. */
  datatype EdgeRecord = EdgeRecord(sommet1: string, sommet2: string, time: int)

  /** What the fold records about one node. */
  datatype NodeInfo = NodeInfo(id: nat, name: string, lineCount: nat, lines: seq<string>)

  /** The state of the fold: the nodes so far, the label-to-id `nodeMap`, and
      the next id the counter hands out. */
  datatype FoldState = FoldState(infos: seq<NodeInfo>, index: map<string, nat>, next: nat)

  function Info(n: Node): NodeInfo
    reads n
  {
    NodeInfo(n.id, n.name, n.lineCount, n.lines)
  }

  function Labels(infos: seq<NodeInfo>): seq<string>
  {
    seq(|infos|, j requires 0 <= j < |infos| => infos[j].name)
  }

  function Names(ns: seq<Node>): seq<string>
  {
    seq(|ns|, j requires 0 <= j < |ns| => ns[j].name)
  }

  function StopIds(rs: seq<StopRecord>): seq<string>
  {
    seq(|rs|, j requires 0 <= j < |rs| => rs[j].id)
  }

  /** `xs.find(y => y === x)`, as an index: the first position holding `x`. */
  function FirstIndexOf<T(==)>(xs: seq<T>, x: T): (r: Option<nat>)
    ensures r.Some? ==> r.value < |xs| && xs[r.value] == x && forall k :: 0 <= k < r.value ==> xs[k] != x
    ensures r.None? <==> x !in xs
  {
    if xs == [] then None
    else if xs[0] == x then Some(0)
    else match FirstIndexOf(xs[1..], x)
      case Some(k) => Some(k + 1)
      case None => None
  }

  /** `addLine`: `line` appended unless already present. */
  function AddedLine(lines: seq<string>, line: string): seq<string>
  {
    if line in lines then lines else lines + [line]
  }

  /** Whether a record with this name creates a node (src/graph.js:599).  As
      written the test is `!nodeMap[name]`, also true for a name mapped to 0. */
  predicate StartsNode(index: map<string, nat>, name: string, asWritten: bool)
  {
    name !in index || (asWritten && index[name] == 0)
  }

  /** One iteration of the `forEach` at src/graph.js:592-620: a new name gets a
      node with the next id, one line and a line count of 1; a known name bumps
      the line count of the first node with that label and adds the line. */
  function FoldStep(st: FoldState, r: StopRecord, asWritten: bool): FoldState
  {
    if StartsNode(st.index, r.name, asWritten) then
      FoldState(st.infos + [NodeInfo(st.next, r.name, 1, [r.line])], st.index[r.name := st.next], st.next + 1)
    else
      match FirstIndexOf(Labels(st.infos), r.name)
      case Some(k) =>
        var n := st.infos[k];
        FoldState(st.infos[k := NodeInfo(n.id, n.name, n.lineCount + 1, AddedLine(n.lines, r.line))], st.index, st.next)
      case None => st
  }

  function FoldWith(rs: seq<StopRecord>, base: nat, asWritten: bool): FoldState
    decreases |rs|
  {
    if rs == [] then FoldState([], map[], base)
    else FoldStep(FoldWith(rs[..|rs| - 1], base, asWritten), rs[|rs| - 1], asWritten)
  }

  /** The fold with the intended test: a name is new when `nodeMap` lacks it. */
  function Fold(rs: seq<StopRecord>, base: nat): FoldState
  {
    FoldWith(rs, base, false)
  }

  /** The fold as src/graph.js:599 writes it. */
  function FoldAsWritten(rs: seq<StopRecord>, base: nat): FoldState
  {
    FoldWith(rs, base, true)
  }

  // ---------------------------------------------------------------------------
  // What the fold promises

  function StopNames(rs: seq<StopRecord>): set<string>
  {
    set r | r in rs :: r.name
  }

  /** How many records carry the name `n`. */
  function RecordCount(rs: seq<StopRecord>, n: string): nat
    decreases |rs|
  {
    if rs == [] then 0
    else RecordCount(rs[..|rs| - 1], n) + (if rs[|rs| - 1].name == n then 1 else 0)
  }

  /** The distinct lines of the records named `n`, in first-seen order. */
  function LinesFor(rs: seq<StopRecord>, n: string): seq<string>
    decreases |rs|
  {
    if rs == [] then []
    else if rs[|rs| - 1].name == n then AddedLine(LinesFor(rs[..|rs| - 1], n), rs[|rs| - 1].line)
    else LinesFor(rs[..|rs| - 1], n)
  }

  lemma {:induction false} AbsentName(rs: seq<StopRecord>, n: string)
    requires n !in StopNames(rs)
    ensures RecordCount(rs, n) == 0 && LinesFor(rs, n) == []
    decreases |rs|
  {
    if rs != [] {
      var pre := rs[..|rs| - 1];
      assert rs[|rs| - 1] in rs;
      assert StopNames(pre) <= StopNames(rs) by {
        forall x | x in StopNames(pre) ensures x in StopNames(rs) {
          var r :| r in pre && r.name == x;
          assert r in rs;
        }
      }
      AbsentName(pre, n);
    }
  }

  lemma StopNamesStep(rs: seq<StopRecord>)
    requires rs != []
    ensures StopNames(rs) == StopNames(rs[..|rs| - 1]) + {rs[|rs| - 1].name}
  {
    var pre := rs[..|rs| - 1];
    assert rs == pre + [rs[|rs| - 1]];
    forall x | x in StopNames(rs) ensures x in StopNames(pre) + {rs[|rs| - 1].name} {
      var r :| r in rs && r.name == x;
      if r != rs[|rs| - 1] {
        assert r in pre;
      }
    }
    forall x | x in StopNames(pre) ensures x in StopNames(rs) {
      var r :| r in pre && r.name == x;
      assert r in rs;
    }
  }

  /** The shape the intended fold keeps: consecutive ids from `base`, one
      node per name, and `nodeMap` sending each name to its node's id. */
  predicate FoldShape(st: FoldState, base: nat)
  {
    && st.next == base + |st.infos|
    && (forall j :: 0 <= j < |st.infos| ==> st.infos[j].id == base + j)
    && (forall n :: n in st.index ==> base <= st.index[n] < st.next && n in Labels(st.infos))
    && (forall j :: 0 <= j < |st.infos| ==> st.infos[j].name in st.index && st.index[st.infos[j].name] == st.infos[j].id)
    && (forall i, j :: 0 <= i < j < |st.infos| ==> st.infos[i].name != st.infos[j].name)
  }

  lemma FoldStepKeepsShape(st: FoldState, r: StopRecord, base: nat)
    requires FoldShape(st, base)
    ensures FoldShape(FoldStep(st, r, false), base)
  {
    if r.name !in st.index {
      NewNameKeepsShape(st, r, base);
    } else {
      KnownNameKeepsShape(st, r, base);
    }
  }

  /** A new name appends a node with the next id and a fresh label. */
  lemma NewNameKeepsShape(st: FoldState, r: StopRecord, base: nat)
    requires FoldShape(st, base) && r.name !in st.index
    ensures FoldShape(FoldStep(st, r, false), base)
  {
    var st1 := FoldStep(st, r, false);
    assert st1.infos == st.infos + [NodeInfo(st.next, r.name, 1, [r.line])];
    assert Labels(st1.infos) == Labels(st.infos) + [r.name];
    forall j | 0 <= j < |st.infos|
      ensures st1.infos[j] == st.infos[j] && st.infos[j].name != r.name
    {
    }
  }

  /** A known name changes only the counts and lines of its node. */
  lemma KnownNameKeepsShape(st: FoldState, r: StopRecord, base: nat)
    requires FoldShape(st, base) && r.name in st.index
    ensures FoldShape(FoldStep(st, r, false), base)
  {
    var st1 := FoldStep(st, r, false);
    assert r.name in Labels(st.infos);
    var k := FirstIndexOf(Labels(st.infos), r.name).value;
    assert st1.index == st.index && st1.next == st.next && |st1.infos| == |st.infos|;
    forall j | 0 <= j < |st.infos|
      ensures st1.infos[j].id == st.infos[j].id && st1.infos[j].name == st.infos[j].name
    {
    }
    assert Labels(st1.infos) == Labels(st.infos);
  }

  lemma {:induction false} FoldHasShape(rs: seq<StopRecord>, base: nat)
    ensures FoldShape(Fold(rs, base), base)
    decreases |rs|
  {
    if rs != [] {
      FoldHasShape(rs[..|rs| - 1], base);
      FoldStepKeepsShape(Fold(rs[..|rs| - 1], base), rs[|rs| - 1], base);
    }
  }

  lemma {:induction false} FoldKeys(rs: seq<StopRecord>, base: nat)
    ensures Fold(rs, base).index.Keys == StopNames(rs)
    decreases |rs|
  {
    if rs != [] {
      FoldKeys(rs[..|rs| - 1], base);
      StopNamesStep(rs);
    }
  }

  lemma {:induction false} FoldCounts(rs: seq<StopRecord>, base: nat)
    ensures var st := Fold(rs, base);
      forall j :: 0 <= j < |st.infos| ==>
        st.infos[j].lineCount == RecordCount(rs, st.infos[j].name) && st.infos[j].lines == LinesFor(rs, st.infos[j].name)
    decreases |rs|
  {
    if rs != [] {
      var pre := rs[..|rs| - 1];
      var r := rs[|rs| - 1];
      FoldCounts(pre, base);
      FoldHasShape(pre, base);
      FoldKeys(pre, base);
      var st0 := Fold(pre, base);
      assert Fold(rs, base) == FoldStep(st0, r, false);
      if r.name !in st0.index {
        AbsentName(pre, r.name);
      } else {
        var k := FirstIndexOf(Labels(st0.infos), r.name).value;
        assert st0.infos[k].name == r.name;
      }
    }
  }

  /** With the intended test, the fold gives one node per distinct name, with
      consecutive ids from `base`; each node counts the records of its name and
      lists their distinct lines in first-seen order; `nodeMap` maps each name
      to the id of its node. */
  lemma FoldSpec(rs: seq<StopRecord>, base: nat)
    ensures var st := Fold(rs, base);
      && st.next == base + |st.infos|
      && (forall j :: 0 <= j < |st.infos| ==> st.infos[j].id == base + j)
      && (forall n :: n in st.index <==> n in StopNames(rs))
      && (forall n :: n in StopNames(rs) ==> n in Labels(st.infos))
      && (forall n :: n in st.index ==> base <= st.index[n] < st.next)
      && (forall j :: 0 <= j < |st.infos| ==> st.infos[j].name in st.index && st.index[st.infos[j].name] == st.infos[j].id)
      && (forall i, j :: 0 <= i < j < |st.infos| ==> st.infos[i].name != st.infos[j].name)
      && (forall j :: 0 <= j < |st.infos| ==>
            st.infos[j].lineCount == RecordCount(rs, st.infos[j].name) && st.infos[j].lines == LinesFor(rs, st.infos[j].name))
  {
    FoldHasShape(rs, base);
    FoldKeys(rs, base);
    FoldCounts(rs, base);
  }

  /** Two records for one name, the first getting id 0: as written, the second
      record starts a second node labelled "A" (and `nodeMap` now points at
      it); the intended fold keeps one node serving both lines. */
  lemma AsWrittenSplitsFirstName()
    ensures var rs := [StopRecord("0001", "A", "1"), StopRecord("0002", "A", "2")];
      && FoldAsWritten(rs, 0).infos == [NodeInfo(0, "A", 1, ["1"]), NodeInfo(1, "A", 1, ["2"])]
      && FoldAsWritten(rs, 0).index == map["A" := 1]
      && Fold(rs, 0).infos == [NodeInfo(0, "A", 2, ["1", "2"])]
  {
    var rs := [StopRecord("0001", "A", "1"), StopRecord("0002", "A", "2")];
    assert rs[..1] == [rs[0]];
    assert FoldWith(rs[..1], 0, true) == FoldState([NodeInfo(0, "A", 1, ["1"])], map["A" := 0], 1);
    assert FoldWith(rs[..1], 0, false) == FoldState([NodeInfo(0, "A", 1, ["1"])], map["A" := 0], 1);
    assert Labels([NodeInfo(0, "A", 1, ["1"])]) == ["A"];
    assert FirstIndexOf(["A"], "A") == Some(0);
    assert AddedLine(["1"], "2") == ["1", "2"];
    assert Fold(rs, 0) == FoldStep(FoldState([NodeInfo(0, "A", 1, ["1"])], map["A" := 0], 1), rs[1], false);
  }

  /** When ids start above 0 no name maps to 0, and the fold as written is the
      intended one. */
  lemma {:induction false} AsWrittenAgreesFromOne(rs: seq<StopRecord>, base: nat)
    requires base > 0
    ensures FoldAsWritten(rs, base) == Fold(rs, base)
    decreases |rs|
  {
    if rs != [] {
      var pre := rs[..|rs| - 1];
      AsWrittenAgreesFromOne(pre, base);
      FoldHasShape(pre, base);
      var r := rs[|rs| - 1];
      assert StartsNode(Fold(pre, base).index, r.name, true) == StartsNode(Fold(pre, base).index, r.name, false);
    }
  }

  // ---------------------------------------------------------------------------
  // Edges

  /** Every record's name has an entry in `index`. */
  predicate AllNamed(rs: seq<StopRecord>, index: map<string, nat>)
  {
    forall r :: r in rs ==> r.name in index
  }

  /** The edge built for one record (src/graph.js:636-639): each endpoint is the
      node of the name of the first stop record with that `ID`.  `None` is the
      `TypeError` raised when no stop record has the `ID`. */
  function EdgeFor(rs: seq<StopRecord>, index: map<string, nat>, a: EdgeRecord): Option<Edge>
    requires AllNamed(rs, index)
  {
    match (FirstIndexOf(StopIds(rs), a.sommet1), FirstIndexOf(StopIds(rs), a.sommet2))
    case (Some(i), Some(j)) => Some(Edge(index[rs[i].name], index[rs[j].name], a.time))
    case _ => None
  }

  /** A record has an edge exactly when both of its ids are stop ids; the edge
      keeps the record's time and joins the nodes of the first stops carrying
      those ids. */
  lemma EdgeForSpec(rs: seq<StopRecord>, index: map<string, nat>, a: EdgeRecord)
    requires AllNamed(rs, index)
    ensures EdgeFor(rs, index, a).Some? <==> a.sommet1 in StopIds(rs) && a.sommet2 in StopIds(rs)
    ensures EdgeFor(rs, index, a).Some? ==>
      exists i, j :: 0 <= i < |rs| && 0 <= j < |rs| && rs[i].id == a.sommet1 && rs[j].id == a.sommet2
                     && (forall k :: 0 <= k < i ==> rs[k].id != a.sommet1)
                     && (forall k :: 0 <= k < j ==> rs[k].id != a.sommet2)
                     && EdgeFor(rs, index, a).value == Edge(index[rs[i].name], index[rs[j].name], a.time)
  {
    if EdgeFor(rs, index, a).Some? {
      var i := FirstIndexOf(StopIds(rs), a.sommet1).value;
      var j := FirstIndexOf(StopIds(rs), a.sommet2).value;
      assert rs[i].id == a.sommet1 && rs[j].id == a.sommet2;
      assert forall k :: 0 <= k < i ==> rs[k].id != a.sommet1 by {
        forall k | 0 <= k < i ensures rs[k].id != a.sommet1 {
          assert StopIds(rs)[k] == rs[k].id;
        }
      }
      assert forall k :: 0 <= k < j ==> rs[k].id != a.sommet2 by {
        forall k | 0 <= k < j ensures rs[k].id != a.sommet2 {
          assert StopIds(rs)[k] == rs[k].id;
        }
      }
      assert EdgeFor(rs, index, a).value == Edge(index[rs[i].name], index[rs[j].name], a.time);
    }
  }

  /** The edges of all records, or `None` as soon as one of them throws. */
  function EdgesFor(rs: seq<StopRecord>, index: map<string, nat>, ers: seq<EdgeRecord>): Option<seq<Edge>>
    requires AllNamed(rs, index)
    decreases |ers|
  {
    if ers == [] then Some([])
    else match (EdgesFor(rs, index, ers[..|ers| - 1]), EdgeFor(rs, index, ers[|ers| - 1]))
      case (Some(es), Some(e)) => Some(es + [e])
      case _ => None
  }

  /** Building one more record's edge appends it. */
  lemma EdgesForPrefixStep(rs: seq<StopRecord>, index: map<string, nat>, ers: seq<EdgeRecord>, k: nat)
    requires AllNamed(rs, index)
    requires k < |ers| && EdgesFor(rs, index, ers[..k]).Some? && EdgeFor(rs, index, ers[k]).Some?
    ensures EdgesFor(rs, index, ers[..k + 1])
            == Some(EdgesFor(rs, index, ers[..k]).value + [EdgeFor(rs, index, ers[k]).value])
  {
    assert ers[..k + 1][..k] == ers[..k];
  }

  /** Built edges are one per record, in order. */
  lemma {:induction false} EdgesForSome(rs: seq<StopRecord>, index: map<string, nat>, ers: seq<EdgeRecord>)
    requires AllNamed(rs, index)
    requires EdgesFor(rs, index, ers).Some?
    ensures |EdgesFor(rs, index, ers).value| == |ers|
    ensures forall k :: 0 <= k < |ers| ==> EdgeFor(rs, index, ers[k]) == Some(EdgesFor(rs, index, ers).value[k])
    decreases |ers|
  {
    if ers != [] {
      var n := |ers|;
      var pre := ers[..n - 1];
      EdgesForSome(rs, index, pre);
      var es := EdgesFor(rs, index, pre).value;
      var es' := es + [EdgeFor(rs, index, ers[n - 1]).value];
      assert EdgesFor(rs, index, ers).value == es';
      forall k | 0 <= k < n
        ensures EdgeFor(rs, index, ers[k]) == Some(es'[k])
      {
        if k < n - 1 {
          assert ers[k] == pre[k];
        }
      }
    }
  }

  /** When every record has an edge, the build succeeds. */
  lemma {:induction false} EdgesForAllSome(rs: seq<StopRecord>, index: map<string, nat>, ers: seq<EdgeRecord>)
    requires AllNamed(rs, index)
    requires forall k :: 0 <= k < |ers| ==> EdgeFor(rs, index, ers[k]).Some?
    ensures EdgesFor(rs, index, ers).Some?
    decreases |ers|
  {
    if ers != [] {
      var pre := ers[..|ers| - 1];
      assert forall k :: 0 <= k < |pre| ==> pre[k] == ers[k];
      EdgesForAllSome(rs, index, pre);
    }
  }

  /** One record without an edge makes the whole build fail. */
  lemma {:induction false} EdgesForFailsAt(rs: seq<StopRecord>, index: map<string, nat>, ers: seq<EdgeRecord>, k: nat)
    requires AllNamed(rs, index)
    requires k < |ers| && EdgeFor(rs, index, ers[k]).None?
    ensures EdgesFor(rs, index, ers).None?
    decreases |ers|
  {
    var pre := ers[..|ers| - 1];
    if k < |pre| {
      assert pre[k] == ers[k];
      EdgesForFailsAt(rs, index, pre, k);
    }
  }

  /** The records produce edges exactly when every record does; then there is
      one edge per record, in order. */
  lemma EdgesForSpec(rs: seq<StopRecord>, index: map<string, nat>, ers: seq<EdgeRecord>)
    requires AllNamed(rs, index)
    ensures EdgesFor(rs, index, ers).Some? <==> forall k :: 0 <= k < |ers| ==> EdgeFor(rs, index, ers[k]).Some?
    ensures EdgesFor(rs, index, ers).Some? ==>
      var es := EdgesFor(rs, index, ers).value;
      |es| == |ers| && forall k :: 0 <= k < |ers| ==> EdgeFor(rs, index, ers[k]) == Some(es[k])
  {
    if EdgesFor(rs, index, ers).Some? {
      EdgesForSome(rs, index, ers);
    } else if forall k :: 0 <= k < |ers| ==> EdgeFor(rs, index, ers[k]).Some? {
      EdgesForAllSome(rs, index, ers);
    }
  }

  // ---------------------------------------------------------------------------
  // The method

  /** The node loop of `createNetwork` (src/graph.js:592-620), building the
      graph in place: every new name gets a fresh `Node` added to the graph,
      and a repeated name updates the first node with that label.  The
      source's local `nodes` and `nodeMap` grow in step with the graph's own
      (`addNode` pushes the same node and sets the same entry), so the loop
      keeps the graph's and hands back its `nodeMap`. */
  method AddStops(counter: IdCounter, sommets: seq<StopRecord>) returns (graph: Graph, nodeMap: map<string, nat>)
    modifies counter
    ensures fresh(graph) && graph.Valid() && graph.selectedStartNode == null && graph.edges == []
    ensures nodeMap == graph.nodeMap
    ensures var st := Fold(sommets, old(counter.idCounter));
      && counter.idCounter == st.next && nodeMap == st.index && |graph.nodes| == |st.infos|
      && forall j :: 0 <= j < |graph.nodes| ==> Info(graph.nodes[j]) == st.infos[j]
  {
    ghost var base := counter.idCounter;
    graph := new Graph();
    var i := 0;
    while i < |sommets|
      invariant 0 <= i <= |sommets|
      invariant fresh(graph) && graph.Valid() && graph.selectedStartNode == null && graph.edges == []
      invariant var st := Fold(sommets[..i], base);
        && counter.idCounter == st.next && graph.nodeMap == st.index && |graph.nodes| == |st.infos|
        && forall j :: 0 <= j < |graph.nodes| ==> fresh(graph.nodes[j]) && Info(graph.nodes[j]) == st.infos[j]
    {
      FoldPrefixStep(sommets, i, base);
      if sommets[i].name !in graph.nodeMap {
        NewStop(counter, graph, sommets[i], Fold(sommets[..i], base));
      } else {
        var k := FirstIndexOf(Names(graph.nodes), sommets[i].name);
        KnownNameHasNode(graph.nodes, sommets[..i], base, sommets[i].name);
        KnownStop(graph.nodes, k.value, sommets[i], Fold(sommets[..i], base), base);
      }
      i := i + 1;
    }
    assert sommets[..i] == sommets;
    nodeMap := graph.nodeMap;
  }

  /** Folding one more record is one more fold step. */
  lemma FoldPrefixStep(rs: seq<StopRecord>, i: nat, base: nat)
    requires i < |rs|
    ensures Fold(rs[..i + 1], base) == FoldStep(Fold(rs[..i], base), rs[i], false)
  {
    assert rs[..i + 1][..i] == rs[..i];
  }

  /** A record with a new name (src/graph.js:599-604, 617-619): a fresh node
      with the next id and the record's line, added to the graph. */
  method NewStop(counter: IdCounter, graph: Graph, sommet: StopRecord, ghost st: FoldState)
    requires graph.Valid() && counter.idCounter == st.next && graph.nodeMap == st.index
    requires |graph.nodes| == |st.infos| && forall j :: 0 <= j < |graph.nodes| ==> Info(graph.nodes[j]) == st.infos[j]
    requires sommet.name !in graph.nodeMap
    modifies counter, graph
    ensures graph.Valid()
    ensures graph.edges == old(graph.edges) && graph.selectedStartNode == old(graph.selectedStartNode)
    ensures var st' := FoldStep(st, sommet, false);
      && counter.idCounter == st'.next && graph.nodeMap == st'.index && |graph.nodes| == |st'.infos|
      && forall j :: 0 <= j < |graph.nodes| ==> Info(graph.nodes[j]) == st'.infos[j]
    ensures |graph.nodes| == |old(graph.nodes)| + 1 && graph.nodes[..|old(graph.nodes)|] == old(graph.nodes)
    ensures fresh(graph.nodes[|old(graph.nodes)|])
  {
    ghost var st' := FoldStep(st, sommet, false);
    assert st'.infos == st.infos + [NodeInfo(st.next, sommet.name, 1, [sommet.line])];
    var node := FirstNode(counter, sommet);
    ghost var before := graph.nodes;
    graph.AddNode(node);
    InfosAppend(before, node, st.infos, Info(node));
  }

  /** A fresh node for a record's name, already holding the record's line
      (src/graph.js:601 and 617-619). */
  method FirstNode(counter: IdCounter, sommet: StopRecord) returns (node: Node)
    modifies counter
    ensures fresh(node) && counter.idCounter == old(counter.idCounter) + 1
    ensures Info(node) == NodeInfo(old(counter.idCounter), sommet.name, 1, [sommet.line])
  {
    node := new Node(counter, sommet.name);
    node.AddLine(sommet.line);
  }

  /** Appending a node whose info is `info` extends the mirrored infos by it. */
  lemma InfosAppend(nodes: seq<Node>, node: Node, infos: seq<NodeInfo>, info: NodeInfo)
    requires |nodes| == |infos| && forall j :: 0 <= j < |nodes| ==> Info(nodes[j]) == infos[j]
    requires Info(node) == info
    ensures forall j :: 0 <= j < |nodes + [node]| ==> Info((nodes + [node])[j]) == (infos + [info])[j]
  {
  }

  /** A name the fold has seen is the label of a node, found at the same
      place in the nodes as in the fold; and the fold's ids count up from
      `base`. */
  lemma KnownNameHasNode(nodes: seq<Node>, rs: seq<StopRecord>, base: nat, name: string)
    requires |nodes| == |Fold(rs, base).infos| && name in Fold(rs, base).index
    requires forall j :: 0 <= j < |nodes| ==> Info(nodes[j]) == Fold(rs, base).infos[j]
    ensures FirstIndexOf(Names(nodes), name).Some?
    ensures FirstIndexOf(Names(nodes), name) == FirstIndexOf(Labels(Fold(rs, base).infos), name)
    ensures forall j :: 0 <= j < |nodes| ==> Fold(rs, base).infos[j].id == base + j
  {
    FoldHasShape(rs, base);
    assert Names(nodes) == Labels(Fold(rs, base).infos);
  }

  /** A record whose name already has a node (src/graph.js:605-619): the first
      node with that label, at `k`, counts one more record and adds the line. */
  method KnownStop(nodes: seq<Node>, k: nat, sommet: StopRecord, ghost st: FoldState, ghost base: nat)
    requires |nodes| == |st.infos| && forall j :: 0 <= j < |nodes| ==> Info(nodes[j]) == st.infos[j]
    requires forall j :: 0 <= j < |st.infos| ==> st.infos[j].id == base + j
    requires sommet.name in st.index && FirstIndexOf(Labels(st.infos), sommet.name) == Some(k)
    modifies nodes[k]
    ensures forall j :: 0 <= j < |nodes| ==> Info(nodes[j]) == FoldStep(st, sommet, false).infos[j]
  {
    var node := nodes[k];
    ghost var n := st.infos[k];
    ghost var infos' := st.infos[k := NodeInfo(n.id, n.name, n.lineCount + 1, AddedLine(n.lines, sommet.line))];
    assert FoldStep(st, sommet, false).infos == infos';
    node.IncrementLineCount();
    node.AddLine(sommet.line);
    forall j | 0 <= j < |nodes|
      ensures Info(nodes[j]) == infos'[j]
    {
      if j != k {
        assert nodes[j].id != node.id;
      }
    }
  }

  /** The edge loop of `createNetwork` (src/graph.js:635-640): every record's
      edge goes into the graph in order; `false` when a record names a stop
      that does not exist, at which point the source throws. */
  method AddEdges(graph: Graph, sommets: seq<StopRecord>, nodeMap: map<string, nat>, aretes: seq<EdgeRecord>) returns (ok: bool)
    requires graph.edges == [] && AllNamed(sommets, nodeMap)
    modifies graph
    ensures graph.nodes == old(graph.nodes) && graph.nodeMap == old(graph.nodeMap)
    ensures graph.selectedStartNode == old(graph.selectedStartNode)
    ensures ok <==> EdgesFor(sommets, nodeMap, aretes).Some?
    ensures ok ==> graph.edges == EdgesFor(sommets, nodeMap, aretes).value
  {
    var k := 0;
    while k < |aretes|
      invariant 0 <= k <= |aretes|
      invariant graph.nodes == old(graph.nodes) && graph.nodeMap == old(graph.nodeMap)
      invariant graph.selectedStartNode == old(graph.selectedStartNode)
      invariant EdgesFor(sommets, nodeMap, aretes[..k]) == Some(graph.edges)
    {
      var edge := EdgeFor(sommets, nodeMap, aretes[k]);
      if edge.None? {
        EdgesForFailsAt(sommets, nodeMap, aretes, k);
        return false;
      }
      EdgesForPrefixStep(sommets, nodeMap, aretes, k);
      graph.AddEdge(edge.value);
      k := k + 1;
    }
    assert aretes[..k] == aretes;
    return true;
  }

  /** `createNetwork` without its fetch and display (src/graph.js:583-640).  The
      result is `null` when an edge record names a missing stop (the source's
      `TypeError`); otherwise the graph holds one node per distinct name as the
      fold describes, the label index of those nodes, and every record's edge,
      each joining two of the graph's nodes. */
  method CreateNetwork(counter: IdCounter, sommets: seq<StopRecord>, aretes: seq<EdgeRecord>) returns (graph: Graph?)
    modifies counter
    ensures counter.idCounter == Fold(sommets, old(counter.idCounter)).next
    ensures graph == null <==>
      exists k :: 0 <= k < |aretes| && !(aretes[k].sommet1 in StopIds(sommets) && aretes[k].sommet2 in StopIds(sommets))
    ensures graph != null ==>
      var st := Fold(sommets, old(counter.idCounter));
      && fresh(graph) && graph.Valid() && graph.selectedStartNode == null
      && graph.nodeMap == st.index
      && |graph.nodes| == |st.infos| && (forall j :: 0 <= j < |graph.nodes| ==> Info(graph.nodes[j]) == st.infos[j])
      && AllNamed(sommets, st.index)
      && EdgesFor(sommets, st.index, aretes).Some? && graph.edges == EdgesFor(sommets, st.index, aretes).value
      && forall e :: e in graph.edges ==> e.from in NodeIds(graph.nodes) && e.to in NodeIds(graph.nodes)
  {
    ghost var base := counter.idCounter;
    var nodeMap;
    graph, nodeMap := AddStops(counter, sommets);
    FoldKeys(sommets, base);
    assert AllNamed(sommets, nodeMap);
    var ok := AddEdges(graph, sommets, nodeMap, aretes);
    EdgesForFailsIff(sommets, nodeMap, aretes);
    if !ok {
      return null;
    }
    EdgesJoinNodes(graph.nodes, sommets, base, aretes);
  }

  /** Building the edges fails exactly when some record names a missing stop. */
  lemma EdgesForFailsIff(rs: seq<StopRecord>, index: map<string, nat>, ers: seq<EdgeRecord>)
    requires AllNamed(rs, index)
    ensures EdgesFor(rs, index, ers).None? <==>
      exists k :: 0 <= k < |ers| && !(ers[k].sommet1 in StopIds(rs) && ers[k].sommet2 in StopIds(rs))
  {
    EdgesForSpec(rs, index, ers);
    if EdgesFor(rs, index, ers).None? {
      var k :| 0 <= k < |ers| && EdgeFor(rs, index, ers[k]).None?;
    }
  }

  /** Every edge built from the fold's `nodeMap` joins two nodes whose ids the
      fold handed out. */
  lemma EdgesJoinNodes(ns: seq<Node>, rs: seq<StopRecord>, base: nat, ers: seq<EdgeRecord>)
    requires |ns| == |Fold(rs, base).infos|
    requires forall j :: 0 <= j < |ns| ==> ns[j].id == Fold(rs, base).infos[j].id
    requires AllNamed(rs, Fold(rs, base).index)
    requires EdgesFor(rs, Fold(rs, base).index, ers).Some?
    ensures forall e :: e in EdgesFor(rs, Fold(rs, base).index, ers).value ==> e.from in NodeIds(ns) && e.to in NodeIds(ns)
  {
    var index := Fold(rs, base).index;
    var es := EdgesFor(rs, index, ers).value;
    EdgesForSpec(rs, index, ers);
    forall e | e in es ensures e.from in NodeIds(ns) && e.to in NodeIds(ns) {
      var k :| 0 <= k < |es| && es[k] == e;
      assert EdgeFor(rs, index, ers[k]) == Some(e);
      var i, j :| 0 <= i < |rs| && 0 <= j < |rs| && e == Edge(index[rs[i].name], index[rs[j].name], ers[k].time);
      IndexedNodeInGraph(ns, rs, base, rs[i].name);
      IndexedNodeInGraph(ns, rs, base, rs[j].name);
    }
  }

  /** The id the fold's `nodeMap` gives a name belongs to a node whose state
      matches the fold. */
  lemma IndexedNodeInGraph(ns: seq<Node>, rs: seq<StopRecord>, base: nat, name: string)
    requires |ns| == |Fold(rs, base).infos|
    requires forall j :: 0 <= j < |ns| ==> ns[j].id == Fold(rs, base).infos[j].id
    requires name in Fold(rs, base).index
    ensures Fold(rs, base).index[name] in NodeIds(ns)
  {
    FoldHasShape(rs, base);
    var j := Fold(rs, base).index[name] - base;
    assert ns[j] in ns;
  }
}
