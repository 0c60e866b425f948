/** What `printTime`, `printTimeWithChanges` and `highlightPath` compute about a
    route (src/graph.js:194-282), stated on values.  The graph's methods that
    perform these loops are in GraphStore. */
module PathCost {
  import opened Wrappers
  import opened Routes

  /** `edges.find(e => e.from === a && e.to === b)`, as an index. */
  function FirstEdge(es: seq<Edge>, a: nat, b: nat): (r: Option<nat>)
    ensures r.Some? ==> r.value < |es| && es[r.value].from == a && es[r.value].to == b
    ensures r.Some? ==> forall k :: 0 <= k < r.value ==> !(es[k].from == a && es[k].to == b)
    ensures r.None? ==> forall k :: 0 <= k < |es| ==> !(es[k].from == a && es[k].to == b)
    decreases |es|
  {
    if es == [] then None
    else
      var r := FirstEdge(es[..|es| - 1], a, b);
      if r.Some? then r
      else if es[|es| - 1].from == a && es[|es| - 1].to == b then Some(|es| - 1)
      else None
  }

  /** The time one hop adds: the first matching edge's weight, or nothing when
      the graph has no edge from `a` to `b`. */
  function HopTime(es: seq<Edge>, a: nat, b: nat): int
  {
    match FirstEdge(es, a, b)
    case Some(k) => es[k].time
    case None => 0
  }

  /** The total `printTime` adds up along `p` (src/graph.js:196-204). */
  function TimeAlong(es: seq<Edge>, p: seq<nat>): int
    decreases |p|
  {
    if |p| < 2 then 0
    else TimeAlong(es, p[..|p| - 1]) + HopTime(es, p[|p| - 2], p[|p| - 1])
  }

  /** Every hop of `p` has an edge in the graph. */
  predicate HopsPresent(es: seq<Edge>, p: seq<nat>)
  {
    forall i :: 0 <= i < |p| - 1 ==> FirstEdge(es, p[i], p[i + 1]).Some?
  }

  /** Parallel edges (same endpoints, same direction) carry the same time. */
  predicate ParallelEdgesAgree(es: seq<Edge>)
  {
    forall k1, k2 :: 0 <= k1 < |es| && 0 <= k2 < |es| && es[k1].from == es[k2].from && es[k1].to == es[k2].to
      ==> es[k1].time == es[k2].time
  }

  /** When every hop has an edge, the reported time is the weight of a walk
      along the route: the one taking the first matching edge at each hop. */
  lemma {:induction false} TimeAlongIsWalkWeight(es: seq<Edge>, p: seq<nat>) returns (ws: seq<nat>)
    requires |p| >= 1 && HopsPresent(es, p)
    ensures Follows(es, ws, p) && WalkWeight(es, ws) == TimeAlong(es, p)
    decreases |p|
  {
    if |p| == 1 {
      ws := [];
    } else {
      var n := |p|;
      var pre := p[..n - 1];
      HopsPresentPrefix(es, p);
      var prev := TimeAlongIsWalkWeight(es, pre);
      var k := FirstEdge(es, p[n - 2], p[n - 1]).value;
      ws := prev + [k];
      FollowsExtend(es, prev, p, k);
      WalkWeightAppend(es, prev, k);
    }
  }

  lemma HopsPresentPrefix(es: seq<Edge>, p: seq<nat>)
    requires |p| >= 2 && HopsPresent(es, p)
    ensures HopsPresent(es, p[..|p| - 1])
  {
    var pre := p[..|p| - 1];
    forall i | 0 <= i < |pre| - 1 ensures FirstEdge(es, pre[i], pre[i + 1]).Some? {
      assert pre[i] == p[i] && pre[i + 1] == p[i + 1];
    }
  }

  /** A walk along a route, extended by an edge for the route's next hop. */
  lemma FollowsExtend(es: seq<Edge>, ws: seq<nat>, p: seq<nat>, k: nat)
    requires |p| >= 2 && Follows(es, ws, p[..|p| - 1])
    requires k < |es| && es[k].from == p[|p| - 2] && es[k].to == p[|p| - 1]
    ensures Follows(es, ws + [k], p)
  {
    var ws' := ws + [k];
    forall i | 0 <= i < |ws'|
      ensures ws'[i] < |es| && es[ws'[i]].from == p[i] && es[ws'[i]].to == p[i + 1]
    {
      if i < |ws| {
        assert ws'[i] == ws[i] && p[..|p| - 1][i] == p[i] && p[..|p| - 1][i + 1] == p[i + 1];
      }
    }
  }

  lemma WalkWeightAppend(es: seq<Edge>, ws: seq<nat>, k: nat)
    requires k < |es|
    ensures WalkWeight(es, ws + [k]) == WalkWeight(es, ws) + es[k].time
  {
    assert (ws + [k])[..|ws|] == ws;
  }

  /** Without disagreeing parallel edges, any walk along the route weighs
      exactly what `printTime` reports. */
  lemma {:induction false} FollowedWeightIsTimeAlong(es: seq<Edge>, ws: seq<nat>, p: seq<nat>)
    requires ParallelEdgesAgree(es) && Follows(es, ws, p)
    ensures WalkWeight(es, ws) == TimeAlong(es, p)
    decreases |ws|
  {
    if ws != [] {
      var n := |ws|;
      assert Follows(es, ws[..n - 1], p[..n]);
      FollowedWeightIsTimeAlong(es, ws[..n - 1], p[..n]);
      var k := ws[n - 1];
      assert FirstEdge(es, p[n - 1], p[n]).Some?;
    }
  }

  /** For a shortest route, the reported time is never below the best walk, and
      equals it when parallel edges agree. */
  lemma ReportedTimeOfShortestRoute(ids: set<nat>, es: seq<Edge>, p: seq<nat>, a: nat, b: nat)
    requires ShortestRoute(ids, es, p, a, b)
    ensures forall ws2 :: IsWalk(ids, es, ws2, a, b) && ParallelEdgesAgree(es) ==> TimeAlong(es, p) <= WalkWeight(es, ws2)
    ensures exists ws :: IsWalk(ids, es, ws, a, b) && WalkWeight(es, ws) <= TimeAlong(es, p)
  {
    var ws :| Follows(es, ws, p) && IsWalk(ids, es, ws, a, b)
              && forall ws2 :: IsWalk(ids, es, ws2, a, b) ==> WalkWeight(es, ws) <= WalkWeight(es, ws2);
    assert HopsPresent(es, p) by {
      forall i | 0 <= i < |p| - 1 ensures FirstEdge(es, p[i], p[i + 1]).Some? {
        assert es[ws[i]].from == p[i] && es[ws[i]].to == p[i + 1];
      }
    }
    var fs := TimeAlongIsWalkWeight(es, p);
    assert forall i :: 0 <= i < |p| ==> p[i] in ids by {
      WalkNodesInIds(ids, es, ws, p);
    }
    FollowsIsWalk(ids, es, fs, p);
    if ParallelEdgesAgree(es) {
      FollowedWeightIsTimeAlong(es, ws, p);
    }
  }

  /** The nodes a walk follows lie in `ids`. */
  lemma {:induction false} WalkNodesInIds(ids: set<nat>, es: seq<Edge>, ws: seq<nat>, p: seq<nat>)
    requires Follows(es, ws, p) && IsWalk(ids, es, ws, p[0], p[|p| - 1])
    ensures forall i :: 0 <= i < |p| ==> p[i] in ids
    decreases |ws|
  {
    if ws != [] {
      var n := |ws|;
      assert Follows(es, ws[..n - 1], p[..n]);
      WalkNodesInIds(ids, es, ws[..n - 1], p[..n]);
    }
  }

  /** The test of src/graph.js:272: `e` joins two consecutive stops of `p`, in
      either direction. */
  predicate OnPath(e: Edge, p: seq<nat>)
  {
    exists i :: 0 <= i < |p| - 1 && ((e.from == p[i] && e.to == p[i + 1]) || (e.from == p[i + 1] && e.to == p[i]))
  }

  function Reverse(p: seq<nat>): (r: seq<nat>)
    ensures |r| == |p| && forall i :: 0 <= i < |p| ==> r[i] == p[|p| - 1 - i]
  {
    if p == [] then [] else Reverse(p[1..]) + [p[0]]
  }

  /** Highlighting ignores direction: the reversed route marks the same edges. */
  lemma HighlightIgnoresDirection(e: Edge, p: seq<nat>)
    ensures OnPath(e, p) <==> OnPath(e, Reverse(p))
  {
    var r := Reverse(p);
    var n := |p|;
    if OnPath(e, p) {
      var i :| 0 <= i < n - 1 && ((e.from == p[i] && e.to == p[i + 1]) || (e.from == p[i + 1] && e.to == p[i]));
      var j := n - 2 - i;
      assert r[j] == p[i + 1] && r[j + 1] == p[i];
    }
    if OnPath(e, r) {
      var j :| 0 <= j < n - 1 && ((e.from == r[j] && e.to == r[j + 1]) || (e.from == r[j + 1] && e.to == r[j]));
      var i := n - 2 - j;
      assert r[j] == p[i + 1] && r[j + 1] == p[i];
    }
  }

  /** Every edge a walk takes along the route gets highlighted. */
  lemma FollowedEdgesHighlighted(es: seq<Edge>, ws: seq<nat>, p: seq<nat>, i: nat)
    requires Follows(es, ws, p) && i < |ws|
    ensures OnPath(es[ws[i]], p)
  {
    assert es[ws[i]].from == p[i] && es[ws[i]].to == p[i + 1];
  }
}
