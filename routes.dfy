/** The shortest-path engine behind `Graph.findShortestPath` (src/graph.js:114-178),
    stated on values.

    The source keeps two dictionaries keyed by node id, `distances` and
    `predecessors`, runs |V|-1 relaxation passes over the edges in stored order,
    scans once more for an edge that can still relax (a negative cycle), and then
    follows predecessors back from the end node.  This module gives each of those
    steps a specification function and proves what the passes establish:
    distances never grow, every predecessor is backed by an edge, and, once the
    final scan finds nothing to relax, the predecessor graph has no cycle, every
    predecessor hop is tight and no walk beats the distances. */
module Routes {
  import opened Wrappers

  /** A directed hop between two node ids that takes `time` seconds (the source's `label` field).  The source
      keeps the time as text and parses it on every use; here it is a number. */
  datatype Edge = Edge(from: nat, to: nat, time: int)

  /** A tentative distance: `Inf` is the source's `Infinity`. */
  datatype Dist = Inf | Fin(v: int)

  /** `a` is no further than `b` (every distance is at most `Inf`). */
  predicate DistLe(a: Dist, b: Dist)
  {
    b.Inf? || (a.Fin? && a.v <= b.v)
  }

  /** The `distances` and `predecessors` dictionaries; `None` is `null`. */
  datatype Table = Table(dist: map<nat, Dist>, pred: map<nat, Option<nat>>)

  /** The dictionaries right after initialisation (src/graph.js:130-134): every
      node infinitely far without predecessor, the start node at distance 0. */
  function Init(ids: set<nat>, start: nat): (t: Table)
    requires start in ids
    ensures t.dist.Keys == ids && t.pred.Keys == ids
    ensures t.dist[start] == Fin(0)
    ensures forall v :: v in ids && v != start ==> t.dist[v] == Inf
    ensures forall v :: v in ids ==> t.pred[v] == None
  {
    Table((map v | v in ids :: Inf)[start := Fin(0)], map v | v in ids :: None)
  }

  /** The test of src/graph.js:140 and :150.  An endpoint that is not a key of
      `distances` reads as `undefined`, and any comparison with it is false; an
      unreached (`Inf`) source never relaxes anything. */
  predicate CanRelax(dist: map<nat, Dist>, e: Edge)
  {
    && e.from in dist && e.to in dist && dist[e.from].Fin?
    && (dist[e.to].Inf? || dist[e.from].v + e.time < dist[e.to].v)
  }

  /** One relaxation (src/graph.js:140-143). */
  function RelaxEdge(t: Table, e: Edge): (r: Table)
    ensures r.dist.Keys == t.dist.Keys
    ensures forall v :: v in t.dist ==> DistLe(r.dist[v], t.dist[v])
    ensures CanRelax(t.dist, e) ==> r.pred == t.pred[e.to := Some(e.from)] && r.dist[e.to] != t.dist[e.to]
    ensures CanRelax(t.dist, e) ==> r.dist[e.to] == Fin(t.dist[e.from].v + e.time)
    ensures forall v :: v in t.dist && v != e.to ==> r.dist[v] == t.dist[v]
    ensures !CanRelax(t.dist, e) ==> r == t
  {
    if CanRelax(t.dist, e) then
      Table(t.dist[e.to := Fin(t.dist[e.from].v + e.time)], t.pred[e.to := Some(e.from)])
    else
      t
  }

  /** One pass of the `forEach` at src/graph.js:138-144, relaxing the edges in order. */
  function Pass(t: Table, es: seq<Edge>): Table
    decreases |es|
  {
    if es == [] then t else RelaxEdge(Pass(t, es[..|es| - 1]), es[|es| - 1])
  }

  /** `k` passes (the loop at src/graph.js:137). */
  function Passes(t: Table, es: seq<Edge>, k: nat): Table
  {
    if k == 0 then t else Pass(Passes(t, es, k - 1), es)
  }

  /** `for (i = 0; i < n - 1; i++)` runs n-1 times, and not at all for n = 0. */
  function PassCount(n: nat): nat
  {
    if n > 0 then n - 1 else 0
  }

  /** The dictionaries when the passes are over, for a graph of `n` nodes whose
      ids are `ids`. */
  function AfterPasses(ids: set<nat>, n: nat, es: seq<Edge>, start: nat): Table
    requires start in ids
  {
    Passes(Init(ids, start), es, PassCount(n))
  }

  /** No edge can relax any more: the negative-cycle scan (src/graph.js:148-154) passes. */
  predicate Stable(dist: map<nat, Dist>, es: seq<Edge>)
  {
    forall k :: 0 <= k < |es| ==> !CanRelax(dist, es[k])
  }

  lemma {:induction false} PassNeverIncreases(t: Table, es: seq<Edge>)
    ensures Pass(t, es).dist.Keys == t.dist.Keys
    ensures forall v :: v in t.dist ==> DistLe(Pass(t, es).dist[v], t.dist[v])
    decreases |es|
  {
    if es != [] {
      PassNeverIncreases(t, es[..|es| - 1]);
    }
  }

  // ---------------------------------------------------------------------------
  // The invariant the passes keep

  /** `u` is a predecessor of `v` backed by an edge u -> v whose weight does not
      overshoot the distance of `v`. */
  ghost predicate Linked(es: seq<Edge>, dist: map<nat, Dist>, u: nat, v: nat)
  {
    && u in dist && v in dist && dist[u].Fin? && dist[v].Fin?
    && exists k :: 0 <= k < |es| && es[k].from == u && es[k].to == v && dist[u].v + es[k].time <= dist[v].v
  }

  /** `c` is a cycle of the predecessor graph: each element is the predecessor
      of the next one, and the last equals the first. */
  ghost predicate PredCycle(pred: map<nat, Option<nat>>, c: seq<nat>)
  {
    && |c| >= 2 && c[0] == c[|c| - 1]
    && forall i :: 1 <= i < |c| ==> c[i] in pred && pred[c[i]] == Some(c[i - 1])
  }

  /** Some hop of `c` is carried by an edge that can still relax. */
  ghost predicate RelaxableHop(es: seq<Edge>, dist: map<nat, Dist>, c: seq<nat>)
  {
    exists i, k :: 1 <= i < |c| && 0 <= k < |es| && es[k].from == c[i - 1] && es[k].to == c[i] && CanRelax(dist, es[k])
  }

  /** What holds of the dictionaries from initialisation through every pass. */
  ghost predicate Inv(ids: set<nat>, start: nat, es: seq<Edge>, t: Table)
  {
    && t.dist.Keys == ids && t.pred.Keys == ids && start in ids
    && (t.pred[start].None? ==> t.dist[start] == Fin(0))
    && (forall v :: v in ids && t.dist[v].Fin? && t.pred[v].None? ==> v == start)
    && (forall v :: v in ids && t.pred[v].Some? ==> Linked(es, t.dist, t.pred[v].value, v))
    && (forall c :: PredCycle(t.pred, c) ==> RelaxableHop(es, t.dist, c))
  }

  lemma InitInv(ids: set<nat>, start: nat, es: seq<Edge>)
    requires start in ids
    ensures Inv(ids, start, es, Init(ids, start))
  {
    var t := Init(ids, start);
    forall c ensures !PredCycle(t.pred, c) {
      if |c| >= 2 && c[1] in t.pred {
        assert t.pred[c[1]] == None;
      }
    }
  }

  /** Relaxing an edge closes a predecessor cycle only through a hop that can
      relax again: the hop leaving the node whose distance just fell. */
  lemma RelaxedCycle(ids: set<nat>, start: nat, es: seq<Edge>, t: Table, k: nat, c: seq<nat>)
    requires Inv(ids, start, es, t) && k < |es| && CanRelax(t.dist, es[k])
    requires PredCycle(RelaxEdge(t, es[k]).pred, c)
    ensures RelaxableHop(es, RelaxEdge(t, es[k]).dist, c)
  {
    var e := es[k];
    var r := RelaxEdge(t, e);
    var v := e.to;
    if m :| 1 <= m < |c| && c[m] == v {
      var j := if m < |c| - 1 then m + 1 else 1;
      assert c[j - 1] == v;
      assert r.pred[c[j]] == Some(v);
      if c[j] == v {
        assert e.from == v;
        assert CanRelax(r.dist, es[k]);
      } else {
        assert t.pred[c[j]] == Some(v);
        assert Linked(es, t.dist, v, c[j]);
        var k2 :| 0 <= k2 < |es| && es[k2].from == v && es[k2].to == c[j] && t.dist[v].v + es[k2].time <= t.dist[c[j]].v;
        assert CanRelax(r.dist, es[k2]);
      }
    } else {
      forall i | 1 <= i < |c| ensures c[i] in t.pred && t.pred[c[i]] == Some(c[i - 1]) {
        assert c[i] != v;
      }
      assert PredCycle(t.pred, c);
      var i, k2 :| 1 <= i < |c| && 0 <= k2 < |es| && es[k2].from == c[i - 1] && es[k2].to == c[i] && CanRelax(t.dist, es[k2]);
      assert c[i - 1] != v by {
        if i == 1 { assert c[0] == c[|c| - 1]; }
      }
      assert CanRelax(r.dist, es[k2]);
    }
  }

  lemma RelaxKeepsInv(ids: set<nat>, start: nat, es: seq<Edge>, t: Table, k: nat)
    requires Inv(ids, start, es, t) && k < |es|
    ensures Inv(ids, start, es, RelaxEdge(t, es[k]))
  {
    var e := es[k];
    if CanRelax(t.dist, e) {
      var r := RelaxEdge(t, e);
      RelaxKeepsRoots(ids, start, es, t, k);
      forall v | v in ids && r.pred[v].Some? ensures Linked(es, r.dist, r.pred[v].value, v) {
        RelaxKeepsLink(ids, start, es, t, k, v);
      }
      forall c | PredCycle(r.pred, c) ensures RelaxableHop(es, r.dist, c) {
        RelaxedCycle(ids, start, es, t, k, c);
      }
    }
  }

  /** A relaxation keeps the table's keys, and only the start node can be
      reached without a predecessor. */
  lemma RelaxKeepsRoots(ids: set<nat>, start: nat, es: seq<Edge>, t: Table, k: nat)
    requires Inv(ids, start, es, t) && k < |es| && CanRelax(t.dist, es[k])
    ensures var r := RelaxEdge(t, es[k]);
      && r.dist.Keys == ids && r.pred.Keys == ids
      && (r.pred[start].None? ==> r.dist[start] == Fin(0))
      && (forall v :: v in ids && r.dist[v].Fin? && r.pred[v].None? ==> v == start)
  {
    var r := RelaxEdge(t, es[k]);
    assert r.pred == t.pred[es[k].to := Some(es[k].from)];
    forall v | v in ids && v != es[k].to
      ensures r.dist[v] == t.dist[v] && r.pred[v] == t.pred[v]
    {
    }
  }

  /** A relaxation keeps every node linked to its predecessor: the relaxed
      node by the edge just used, any other node by the edge it had, since the
      predecessor's distance only went down. */
  lemma RelaxKeepsLink(ids: set<nat>, start: nat, es: seq<Edge>, t: Table, k: nat, v: nat)
    requires Inv(ids, start, es, t) && k < |es| && CanRelax(t.dist, es[k])
    requires v in ids && RelaxEdge(t, es[k]).pred[v].Some?
    ensures Linked(es, RelaxEdge(t, es[k]).dist, RelaxEdge(t, es[k]).pred[v].value, v)
  {
    var r := RelaxEdge(t, es[k]);
    if v == es[k].to {
      assert es[k].from == r.pred[v].value && es[k].to == v;
    } else {
      var u := t.pred[v].value;
      assert Linked(es, t.dist, u, v);
      var k2 :| 0 <= k2 < |es| && es[k2].from == u && es[k2].to == v && t.dist[u].v + es[k2].time <= t.dist[v].v;
      assert DistLe(r.dist[u], t.dist[u]);
      assert es[k2].from == u && es[k2].to == v && r.dist[u].v + es[k2].time <= r.dist[v].v;
    }
  }

  lemma {:induction false} PassKeepsInv(ids: set<nat>, start: nat, es: seq<Edge>, t: Table, j: nat)
    requires Inv(ids, start, es, t) && j <= |es|
    ensures Inv(ids, start, es, Pass(t, es[..j]))
    decreases j
  {
    if j > 0 {
      PassKeepsInv(ids, start, es, t, j - 1);
      assert es[..j][..j - 1] == es[..j - 1];
      RelaxKeepsInv(ids, start, es, Pass(t, es[..j - 1]), j - 1);
    }
  }

  /** The invariant holds after any number of passes. */
  lemma {:induction false} PassesKeepInv(ids: set<nat>, start: nat, es: seq<Edge>, k: nat)
    requires start in ids
    ensures Inv(ids, start, es, Passes(Init(ids, start), es, k))
  {
    if k == 0 {
      InitInv(ids, start, es);
    } else {
      PassesKeepInv(ids, start, es, k - 1);
      PassKeepsInv(ids, start, es, Passes(Init(ids, start), es, k - 1), |es|);
      assert es[..|es|] == es;
    }
  }

  /** Once the negative-cycle scan passes, the predecessor graph is acyclic, so
      the reconstruction loop at src/graph.js:159-162 ends. */
  lemma StableHasNoPredCycle(ids: set<nat>, start: nat, es: seq<Edge>, t: Table, c: seq<nat>)
    requires Inv(ids, start, es, t) && Stable(t.dist, es)
    ensures !PredCycle(t.pred, c)
  {
  }

  /** Prepending the predecessor `x` of a chain's first node, where `x` already
      occurs in the chain at `j`, closes a predecessor cycle. */
  lemma ClosingCycle(pred: map<nat, Option<nat>>, p: seq<nat>, x: nat, j: nat)
    requires |p| >= 1 && j < |p| && p[j] == x
    requires p[0] in pred && pred[p[0]] == Some(x)
    requires forall i :: 1 <= i < |p| ==> p[i] in pred && pred[p[i]] == Some(p[i - 1])
    ensures PredCycle(pred, [x] + p[..j + 1])
  {
    var c := [x] + p[..j + 1];
    forall i | 1 <= i < |c| ensures c[i] in pred && pred[c[i]] == Some(c[i - 1]) {
      assert c[i] == p[i - 1];
    }
  }

  // ---------------------------------------------------------------------------
  // Walks and their weights

  /** `ws` lists edge indices forming a walk from `a` to `b` through nodes of
      `ids` (edges to or from an unknown id never relax, so they are not part of
      any walk the engine can see). */
  predicate IsWalk(ids: set<nat>, es: seq<Edge>, ws: seq<nat>, a: nat, b: nat)
    decreases |ws|
  {
    if ws == [] then a == b && a in ids
    else
      && ws[|ws| - 1] < |es| && es[ws[|ws| - 1]].to == b && b in ids
      && IsWalk(ids, es, ws[..|ws| - 1], a, es[ws[|ws| - 1]].from)
  }

  /** The total time of a walk. */
  function WalkWeight(es: seq<Edge>, ws: seq<nat>): int
    decreases |ws|
  {
    if ws == [] then 0
    else WalkWeight(es, ws[..|ws| - 1]) + (if ws[|ws| - 1] < |es| then es[ws[|ws| - 1]].time else 0)
  }

  ghost predicate Reachable(ids: set<nat>, es: seq<Edge>, a: nat, b: nat)
  {
    exists ws :: IsWalk(ids, es, ws, a, b)
  }

  /** The edges `ws` carry the node sequence `p` hop by hop. */
  predicate Follows(es: seq<Edge>, ws: seq<nat>, p: seq<nat>)
  {
    && |ws| + 1 == |p|
    && forall i :: 0 <= i < |ws| ==> ws[i] < |es| && es[ws[i]].from == p[i] && es[ws[i]].to == p[i + 1]
  }

  lemma {:induction false} FollowsIsWalk(ids: set<nat>, es: seq<Edge>, ws: seq<nat>, p: seq<nat>)
    requires Follows(es, ws, p)
    requires forall i :: 0 <= i < |p| ==> p[i] in ids
    ensures IsWalk(ids, es, ws, p[0], p[|p| - 1])
    decreases |ws|
  {
    if ws != [] {
      var n := |ws|;
      assert Follows(es, ws[..n - 1], p[..n]);
      FollowsIsWalk(ids, es, ws[..n - 1], p[..n]);
    }
  }

  /** With nothing left to relax, no walk from `a` reaches `b` more cheaply than
      the distances say, and every node a walk reaches from a finite node is finite. */
  lemma {:induction false} WalkBound(ids: set<nat>, es: seq<Edge>, dist: map<nat, Dist>, ws: seq<nat>, a: nat, b: nat)
    requires dist.Keys == ids && Stable(dist, es)
    requires IsWalk(ids, es, ws, a, b) && a in ids && dist[a].Fin?
    ensures dist[b].Fin? && dist[b].v <= dist[a].v + WalkWeight(es, ws)
    decreases |ws|
  {
    if ws != [] {
      var e := es[ws[|ws| - 1]];
      WalkBound(ids, es, dist, ws[..|ws| - 1], a, e.from);
      assert !CanRelax(dist, e);
    }
  }

  /** After a stable table, the predecessor chain `p` is carried by edges whose
      weights add up exactly to the distance gained along it. */
  lemma {:induction false} TightWalk(ids: set<nat>, start: nat, es: seq<Edge>, t: Table, p: seq<nat>) returns (ws: seq<nat>)
    requires Inv(ids, start, es, t) && Stable(t.dist, es)
    requires |p| >= 1 && p[0] in ids && t.dist[p[0]].Fin?
    requires forall i :: 1 <= i < |p| ==> p[i] in ids && t.pred[p[i]] == Some(p[i - 1])
    ensures Follows(es, ws, p)
    ensures t.dist[p[|p| - 1]].Fin? && t.dist[p[|p| - 1]].v == t.dist[p[0]].v + WalkWeight(es, ws)
    decreases |p|
  {
    if |p| == 1 {
      ws := [];
    } else {
      var n := |p|;
      var pre := p[..n - 1];
      assert forall i :: 0 <= i < n - 1 ==> pre[i] == p[i];
      var prev := TightWalk(ids, start, es, t, pre);
      var k := TightHop(ids, start, es, t, p[n - 2], p[n - 1]);
      ws := prev + [k];
      assert ws[..|ws| - 1] == prev;
      assert WalkWeight(es, ws) == WalkWeight(es, prev) + es[k].time;
      forall i | 0 <= i < |ws|
        ensures ws[i] < |es| && es[ws[i]].from == p[i] && es[ws[i]].to == p[i + 1]
      {
        if i < |prev| {
          assert ws[i] == prev[i];
        }
      }
    }
  }

  /** On a stable table, a node and its predecessor are joined by an edge whose
      time is exactly the difference of their distances. */
  lemma TightHop(ids: set<nat>, start: nat, es: seq<Edge>, t: Table, u: nat, v: nat) returns (k: nat)
    requires Inv(ids, start, es, t) && Stable(t.dist, es)
    requires v in ids && t.pred[v] == Some(u)
    ensures k < |es| && es[k].from == u && es[k].to == v
    ensures u in t.dist && v in t.dist && t.dist[u].Fin? && t.dist[v].Fin?
    ensures t.dist[v].v == t.dist[u].v + es[k].time
  {
    assert Linked(es, t.dist, u, v);
    k :| 0 <= k < |es| && es[k].from == u && es[k].to == v && t.dist[u].v + es[k].time <= t.dist[v].v;
    assert !CanRelax(t.dist, es[k]);
  }

  /** A chain of predecessors that ends at a reached node and whose first node
      has no predecessor starts at the start node. */
  lemma ChainStartsAtStart(ids: set<nat>, start: nat, es: seq<Edge>, t: Table, p: seq<nat>)
    requires Inv(ids, start, es, t)
    requires |p| >= 1 && (forall i :: 0 <= i < |p| ==> p[i] in ids)
    requires forall i :: 1 <= i < |p| ==> t.pred[p[i]] == Some(p[i - 1])
    requires t.pred[p[0]] == None && t.dist[p[|p| - 1]].Fin?
    ensures p[0] == start
  {
    if |p| > 1 {
      assert Linked(es, t.dist, p[0], p[1]);
    }
  }

  /** `p` is a simple path from `a` to `b` carried by a walk that no walk from
      `a` to `b` undercuts. */
  ghost predicate ShortestRoute(ids: set<nat>, es: seq<Edge>, p: seq<nat>, a: nat, b: nat)
  {
    && |p| >= 1 && p[0] == a && p[|p| - 1] == b
    && (forall i, j :: 0 <= i < j < |p| ==> p[i] != p[j])
    && exists ws :: Follows(es, ws, p) && IsWalk(ids, es, ws, a, b)
                    && forall ws2 :: IsWalk(ids, es, ws2, a, b) ==> WalkWeight(es, ws) <= WalkWeight(es, ws2)
  }

  /** A shortest route has a single stop exactly when it starts where it ends. */
  lemma SelfRouteIsSingleton(ids: set<nat>, es: seq<Edge>, p: seq<nat>, a: nat, b: nat)
    requires ShortestRoute(ids, es, p, a, b)
    ensures |p| == 1 <==> a == b
    ensures a == b ==> p == [a]
  {
  }

  /** The path read off a stable table from an unpredecessored start is a
      shortest route. */
  lemma ReconstructedIsShortest(ids: set<nat>, start: nat, es: seq<Edge>, t: Table, p: seq<nat>)
    requires Inv(ids, start, es, t) && Stable(t.dist, es)
    requires |p| >= 1 && p[0] == start && t.pred[start] == None
    requires forall i :: 0 <= i < |p| ==> p[i] in ids
    requires forall i :: 1 <= i < |p| ==> t.pred[p[i]] == Some(p[i - 1])
    requires forall i, j :: 0 <= i < j < |p| ==> p[i] != p[j]
    ensures ShortestRoute(ids, es, p, start, p[|p| - 1])
  {
    var b := p[|p| - 1];
    var ws := TightWalk(ids, start, es, t, p);
    FollowsIsWalk(ids, es, ws, p);
    forall ws2 | IsWalk(ids, es, ws2, start, b) ensures WalkWeight(es, ws) <= WalkWeight(es, ws2) {
      WalkBound(ids, es, t.dist, ws2, start, b);
    }
  }
}
