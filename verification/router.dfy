/**
  Dijkstra's shortest-path search over a directed adjacency map, as done by
  `dijkstra` in src/lib/bloodData.ts. The priority queue (an array re-sorted on
  every iteration in the original) is modelled abstractly: each round settles
  some unsettled node whose tentative distance is minimal. Nothing proved here
  depends on how ties between such nodes are broken.
 */
module Router {
  import opened Graphs

  /** The router's answer: the node sequence and its length, -1 meaning "no route". */
  datatype Route<A> = Route(path: seq<A>, distance: int)

  /**
    What a route answer means: the distance is the shortest-path distance (-1 if
    unreachable); a path is reported only for a real trip (two or more stops),
    follows outgoing entries from `start` to `end`, and weighs exactly `distance`.
   */
  ghost predicate RouteSpec<A(!new)>(g: Graph<A>, start: A, end: A, r: Route<A>) {
    && r.distance == ShortestDistance(g, start, end)
    && (r.distance < 0 || start == end ==> r.path == [])
    && (r.distance >= 0 && start != end ==>
          IsPathFrom(g, r.path, start, end) && Weight(g, r.path) == r.distance)
  }

  // ---------------------------------------------------------------------------
  // Loop invariants of the search. `dist` holds the finite tentative distances
  // (a missing key is JavaScript's Infinity), `prev` the non-null predecessors.

  /** Every settled node's distance is no longer than any path to it. */
  ghost predicate Settled<A(!new)>(g: Graph<A>, start: A, dist: map<A, nat>, visited: set<A>) {
    forall u, p :: u in visited && IsPathFrom(g, p, start, u) ==> u in dist && dist[u] <= Weight(g, p)
  }

  /** Every out-neighbour of a node in `done` has been relaxed through it (or is settled). */
  ghost predicate RelaxedFrom<A(!new)>(g: Graph<A>, dist: map<A, nat>, visited: set<A>, done: set<A>) {
    forall u, v :: u in done && u in dist && Edge(g, u, v) ==>
      v in dist && (v in visited || dist[v] <= dist[u] + g[u][v])
  }

  /** Predecessor links point at settled nodes along an edge that accounts for the distance. */
  ghost predicate PrevChain<A(!new)>(g: Graph<A>, start: A, dist: map<A, nat>, prev: map<A, A>, visited: set<A>) {
    forall v :: v in prev ==>
      && v in dist && v != start && prev[v] in visited && prev[v] in dist
      && Edge(g, prev[v], v) && dist[v] == dist[prev[v]] + g[prev[v]][v]
  }

  /** Every reached node other than the start has a predecessor. */
  ghost predicate Rooted<A(!new)>(start: A, dist: map<A, nat>, prev: map<A, A>) {
    forall v :: v in dist ==> v == start || v in prev
  }

  ghost predicate SearchInv<A(!new)>(g: Graph<A>, nodes: set<A>, start: A, end: A,
                                     dist: map<A, nat>, prev: map<A, A>, visited: set<A>) {
    && start in dist && dist[start] == 0
    && dist.Keys <= nodes
    && visited <= dist.Keys
    && end !in visited
    && (visited == {} ==> dist.Keys == {start})
    && (visited != {} ==> start in visited)
    && PrevChain(g, start, dist, prev, visited)
    && Rooted(start, dist, prev)
    && Settled(g, start, dist, visited)
    && RelaxedFrom(g, dist, visited, visited)
  }

  // ---------------------------------------------------------------------------

  /** Selects an unsettled node of least tentative distance (the queue's `shift`). */
  method PickMin<A(==)>(dist: map<A, nat>, frontier: set<A>) returns (u: A)
    requires frontier != {} && frontier <= dist.Keys
    ensures u in frontier
    ensures forall x :: x in frontier ==> dist[u] <= dist[x]
  {
    u :| u in frontier;
    var rest := frontier - {u};
    while rest != {}
      invariant rest <= frontier && u in frontier
      invariant forall x :: x in frontier - rest ==> dist[u] <= dist[x]
      decreases rest
    {
      var x :| x in rest;
      rest := rest - {x};
      if dist[x] < dist[u] {
        u := x;
      }
    }
  }

  /**
    Any path that starts among the settled nodes and ends outside them crosses
    into the frontier at a node whose tentative distance is at most the path's weight.
   */
  lemma {:induction false} Escape<A(!new)>(g: Graph<A>, start: A, dist: map<A, nat>, visited: set<A>, p: seq<A>)
    requires visited <= dist.Keys
    requires Settled(g, start, dist, visited) && RelaxedFrom(g, dist, visited, visited)
    requires IsPath(g, p) && p[0] == start && start in visited && p[|p| - 1] !in visited
    ensures exists x :: x in dist && x !in visited && dist[x] <= Weight(g, p)
    ensures dist.Keys - visited != {}
    decreases |p|
  {
    var n := |p|;
    var q := p[..n - 1];
    PrefixIsPath(g, p, n - 1);
    LastEdge(g, p);
    assert Weight(g, p) == Weight(g, q) + g[p[n - 2]][p[n - 1]];
    if p[n - 2] in visited {
      assert IsPathFrom(g, q, start, p[n - 2]);
      assert p[n - 1] in dist && dist[p[n - 1]] <= dist[p[n - 2]] + g[p[n - 2]][p[n - 1]];
      assert p[n - 1] in dist.Keys - visited;
    } else {
      Escape(g, start, dist, visited, q);
    }
  }

  /** The node picked next is already at its shortest distance. */
  lemma SettleNext<A(!new)>(g: Graph<A>, nodes: set<A>, start: A, end: A,
                            dist: map<A, nat>, prev: map<A, A>, visited: set<A>, u: A)
    requires SearchInv(g, nodes, start, end, dist, prev, visited)
    requires u in dist && u !in visited
    requires forall x :: x in dist.Keys - visited ==> dist[u] <= dist[x]
    ensures forall p :: IsPathFrom(g, p, start, u) ==> dist[u] <= Weight(g, p)
  {
    forall p | IsPathFrom(g, p, start, u) ensures dist[u] <= Weight(g, p) {
      if visited != {} {
        Escape(g, start, dist, visited, p);
      }
    }
  }

  /** With the frontier exhausted and `end` never settled, no path reaches `end`. */
  lemma Unreachable<A(!new)>(g: Graph<A>, nodes: set<A>, start: A, end: A,
                             dist: map<A, nat>, prev: map<A, A>, visited: set<A>)
    requires SearchInv(g, nodes, start, end, dist, prev, visited)
    requires dist.Keys - visited == {}
    ensures !Reachable(g, start, end)
  {
    assert start in visited by { assert start !in dist.Keys - visited; }
    if p :| IsPathFrom(g, p, start, end) {
      Escape(g, start, dist, visited, p);
    }
  }

  /** The state right after settling `u`, before its neighbours are relaxed. */
  ghost predicate SettledInv<A(!new)>(g: Graph<A>, nodes: set<A>, start: A, end: A,
                                      dist: map<A, nat>, prev: map<A, A>, visited: set<A>, u: A) {
    && u in visited && end !in visited
    && start in dist && dist[start] == 0 && start in visited
    && dist.Keys <= nodes && visited <= dist.Keys
    && PrevChain(g, start, dist, prev, visited) && Rooted(start, dist, prev)
    && Settled(g, start, dist, visited)
    && RelaxedFrom(g, dist, visited, visited - {u})
  }

  lemma AfterSettle<A(!new)>(g: Graph<A>, nodes: set<A>, start: A, end: A,
                             dist: map<A, nat>, prev: map<A, A>, visited: set<A>, u: A)
    requires SearchInv(g, nodes, start, end, dist, prev, visited)
    requires u in dist && u !in visited && u != end
    requires forall x :: x in dist.Keys - visited ==> dist[u] <= dist[x]
    ensures SettledInv(g, nodes, start, end, dist, prev, visited + {u}, u)
  {
    SettleNext(g, nodes, start, end, dist, prev, visited, u);
    var visited' := visited + {u};
    if visited == {} {
      assert u == start;
    }
    assert Settled(g, start, dist, visited');
    assert (visited' - {u}) == visited;
    forall w, v | w in visited && w in dist && Edge(g, w, v)
      ensures v in dist && (v in visited' || dist[v] <= dist[w] + g[w][v])
    {
    }
  }

  /** Lowering the tentative distance of an unsettled out-neighbour of `u` keeps the invariant. */
  lemma RelaxOne<A(!new)>(g: Graph<A>, nodes: set<A>, start: A, end: A,
                          dist: map<A, nat>, prev: map<A, A>, visited: set<A>, u: A, v: A, d: nat)
    requires SettledInv(g, nodes, start, end, dist, prev, visited, u)
    requires Edge(g, u, v) && v !in visited && v in nodes
    requires d == dist[u] + g[u][v] && (v !in dist || d < dist[v])
    ensures SettledInv(g, nodes, start, end, dist[v := d], prev[v := u], visited, u)
  {
    var dist', prev' := dist[v := d], prev[v := u];
    assert v != start;
    assert PrevChain(g, start, dist', prev', visited);
    assert Settled(g, start, dist', visited);
  }

  /** Relaxes every outgoing entry of the freshly settled `u`, skipping settled neighbours. */
  method RelaxNeighbours<A(!new, ==)>(g: Graph<A>, areas: set<A>, start: A, end: A,
                                      dist0: map<A, nat>, prev0: map<A, A>, visited: set<A>, u: A)
    returns (dist: map<A, nat>, prev: map<A, A>)
    requires WellFormed(g, areas)
    requires SettledInv(g, areas + {start}, start, end, dist0, prev0, visited, u)
    ensures SearchInv(g, areas + {start}, start, end, dist, prev, visited)
    ensures forall x :: x in visited ==> dist[x] == dist0[x]
  {
    dist, prev := dist0, prev0;
    var todo := if u in g then g[u].Keys else {};
    while todo != {}
      invariant todo <= (if u in g then g[u].Keys else {})
      invariant SettledInv(g, areas + {start}, start, end, dist, prev, visited, u)
      invariant forall x :: x in visited ==> dist[x] == dist0[x]
      invariant forall v :: Edge(g, u, v) && v !in todo ==>
                  v in dist && (v in visited || dist[v] <= dist[u] + g[u][v])
      decreases todo
    {
      var v :| v in todo;
      todo := todo - {v};
      if v !in visited && v in areas {
        var newDist := dist[u] + g[u][v];
        if v !in dist || newDist < dist[v] {
          RelaxOne(g, areas + {start}, start, end, dist, prev, visited, u, v, newDist);
          dist := dist[v := newDist];
          prev := prev[v := u];
        }
      }
    }
  }

  /**
    Walks the predecessor links back from `end`, prepending each stop, until a
    node without predecessor (the start) is met.
   */
  method Reconstruct<A(!new, ==)>(g: Graph<A>, nodes: set<A>, start: A, dist: map<A, nat>, prev: map<A, A>,
                                   visited: set<A>, end: A) returns (path: seq<A>)
    requires WellFormed(g, nodes)
    requires start in dist && dist[start] == 0
    requires PrevChain(g, start, dist, prev, visited) && Rooted(start, dist, prev)
    requires end in dist
    ensures IsPathFrom(g, path, start, end) && Weight(g, path) == dist[end]
    ensures |path| == 1 <==> end == start
  {
    var cur := end;
    path := [end];
    while cur in prev
      invariant cur in dist && dist[cur] <= dist[end]
      invariant IsPathFrom(g, path, cur, end) && Weight(g, path) + dist[cur] == dist[end]
      invariant |path| == 1 <==> cur == end
      decreases dist[cur]
    {
      var p := prev[cur];
      WeightPrepend(g, p, path);
      path := [p] + path;
      cur := p;
    }
  }

  method Dijkstra<A(!new, ==)>(g: Graph<A>, areas: set<A>, start: A, end: A) returns (r: Route<A>)
    requires WellFormed(g, areas)
    requires end in areas
    ensures RouteSpec(g, start, end, r)
    ensures r.distance == -1 <==> !Reachable(g, start, end)
    ensures start == end ==> r == Route([], 0)
  {
    var dist: map<A, nat> := map[start := 0];
    var prev: map<A, A> := map[];
    var visited: set<A> := {};
    ghost var nodes := areas + {start};
    while dist.Keys - visited != {}
      invariant SearchInv(g, nodes, start, end, dist, prev, visited)
      decreases nodes - visited
    {
      var u := PickMin(dist, dist.Keys - visited);
      if u == end {
        SettleNext(g, nodes, start, end, dist, prev, visited, u);
        visited := visited + {u};
        var path := Reconstruct(g, areas, start, dist, prev, visited, end);
        assert IsMinimal(g, start, end, dist[end]);
        MinimalIsShortest(g, start, end, dist[end]);
        r := Route(if |path| > 1 then path else [], dist[end]);
        return;
      }
      AfterSettle(g, nodes, start, end, dist, prev, visited, u);
      visited := visited + {u};
      dist, prev := RelaxNeighbours(g, areas, start, end, dist, prev, visited, u);
    }
    Unreachable(g, nodes, start, end, dist, prev, visited);
    assert start in visited by { assert start !in dist.Keys - visited; }
    r := Route([], -1);
  }
}
