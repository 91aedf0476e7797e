/**
  Directed weighted graphs stored as adjacency maps, directed paths over them,
  and the shortest-path distance that the router is specified against.
 */
module Graphs {

  /** Outgoing neighbours of each node together with the edge weight. */
  type Graph<A> = map<A, map<A, nat>>

  /** The graph has an outgoing entry `u -> v`. */
  ghost predicate Edge<A(!new)>(g: Graph<A>, u: A, v: A) {
    u in g && v in g[u]
  }

  /** Every weight is positive and every node mentioned is one of `nodes`. */
  ghost predicate WellFormed<A(!new)>(g: Graph<A>, nodes: set<A>) {
    forall u, v :: Edge(g, u, v) ==> u in nodes && v in nodes && g[u][v] > 0
  }

  /** A non-empty node sequence that follows outgoing entries only. */
  ghost predicate IsPath<A(!new)>(g: Graph<A>, p: seq<A>) {
    |p| >= 1 && forall i :: 0 <= i < |p| - 1 ==> Edge(g, p[i], p[i + 1])
  }

  ghost predicate IsPathFrom<A(!new)>(g: Graph<A>, p: seq<A>, s: A, t: A) {
    IsPath(g, p) && p[0] == s && p[|p| - 1] == t
  }

  /** Sum of the edge weights along a path (a one-node path weighs 0). */
  ghost function Weight<A(!new)>(g: Graph<A>, p: seq<A>): nat
    requires IsPath(g, p)
    decreases |p|
  {
    if |p| == 1 then 0
    else
      PrefixIsPath(g, p, |p| - 1);
      LastEdge(g, p);
      Weight(g, p[..|p| - 1]) + g[p[|p| - 2]][p[|p| - 1]]
  }

  lemma PrefixIsPath<A(!new)>(g: Graph<A>, p: seq<A>, k: nat)
    requires IsPath(g, p) && 1 <= k <= |p|
    ensures IsPath(g, p[..k])
  {
    var q := p[..k];
    forall i | 0 <= i < k - 1 ensures Edge(g, q[i], q[i + 1]) {
      assert Edge(g, p[i], p[i + 1]);
    }
  }

  lemma LastEdge<A(!new)>(g: Graph<A>, p: seq<A>)
    requires IsPath(g, p) && |p| >= 2
    ensures Edge(g, p[|p| - 2], p[|p| - 1])
  {
    var i := |p| - 2;
    assert Edge(g, p[i], p[i + 1]);
  }

  ghost predicate Reachable<A(!new)>(g: Graph<A>, s: A, t: A) {
    exists p :: IsPathFrom(g, p, s, t)
  }

  /** `d` is the weight of some path from `s` to `t`, and no such path is lighter. */
  ghost predicate IsMinimal<A(!new)>(g: Graph<A>, s: A, t: A, d: nat) {
    && (exists p :: IsPathFrom(g, p, s, t) && Weight(g, p) == d)
    && (forall p :: IsPathFrom(g, p, s, t) ==> d <= Weight(g, p))
  }

  /** The length of a shortest directed path, or -1 when `t` cannot be reached from `s`. */
  ghost function ShortestDistance<A(!new)>(g: Graph<A>, s: A, t: A): (d: int)
    ensures d >= 0 <==> Reachable(g, s, t)
    ensures d >= 0 ==> IsMinimal(g, s, t, d)
    ensures d < 0 ==> d == -1
  {
    if Reachable(g, s, t) then
      var p0 :| IsPathFrom(g, p0, s, t);
      MinimalExists(g, s, t, p0);
      var d: nat :| IsMinimal(g, s, t, d); d
    else -1
  }

  /** Any path bounds the minimum from above, so a minimum exists (well-foundedness of nat). */
  lemma {:induction false} MinimalExists<A(!new)>(g: Graph<A>, s: A, t: A, p0: seq<A>)
    requires IsPathFrom(g, p0, s, t)
    ensures exists d: nat :: IsMinimal(g, s, t, d)
    decreases Weight(g, p0)
  {
    if forall p :: IsPathFrom(g, p, s, t) ==> Weight(g, p0) <= Weight(g, p) {
      assert IsMinimal(g, s, t, Weight(g, p0));
    } else {
      var p :| IsPathFrom(g, p, s, t) && Weight(g, p) < Weight(g, p0);
      MinimalExists(g, s, t, p);
    }
  }

  /** A minimal weight is unique, so it is the shortest distance. */
  lemma MinimalIsShortest<A(!new)>(g: Graph<A>, s: A, t: A, d: nat)
    requires IsMinimal(g, s, t, d)
    ensures ShortestDistance(g, s, t) == d
  {
    var p :| IsPathFrom(g, p, s, t) && Weight(g, p) == d;
    var e := ShortestDistance(g, s, t);
    assert e >= 0;
    var q :| IsPathFrom(g, q, s, t) && Weight(g, q) == e;
  }

  /** Every node reaches itself at distance 0 (the one-node path). */
  lemma SelfDistance<A(!new)>(g: Graph<A>, s: A)
    ensures ShortestDistance(g, s, s) == 0
  {
    assert IsPathFrom(g, [s], s, s) && Weight(g, [s]) == 0;
    MinimalIsShortest(g, s, s, 0);
  }

  /** Prepending an edge adds its weight at the front. */
  lemma {:induction false} WeightPrepend<A(!new)>(g: Graph<A>, x: A, p: seq<A>)
    requires IsPath(g, p) && Edge(g, x, p[0])
    ensures IsPath(g, [x] + p)
    ensures Weight(g, [x] + p) == g[x][p[0]] + Weight(g, p)
    decreases |p|
  {
    var q := [x] + p;
    assert forall i :: 1 <= i < |q| ==> q[i] == p[i - 1];
    assert IsPath(g, q) by {
      forall i | 0 <= i < |q| - 1 ensures Edge(g, q[i], q[i + 1]) {
        if i > 0 { assert Edge(g, p[i - 1], p[i]); }
      }
    }
    if |p| > 1 {
      var p' := p[..|p| - 1];
      PrefixIsPath(g, p, |p| - 1);
      WeightPrepend(g, x, p');
      assert q[..|q| - 1] == [x] + p';
    }
  }

  /** A path's prefix is a path that weighs no more. */
  lemma {:induction false} PrefixWeight<A(!new)>(g: Graph<A>, p: seq<A>, k: nat)
    requires IsPath(g, p) && 1 <= k <= |p|
    ensures IsPath(g, p[..k]) && Weight(g, p[..k]) <= Weight(g, p)
    decreases |p|
  {
    PrefixIsPath(g, p, k);
    if k < |p| {
      var q := p[..|p| - 1];
      PrefixIsPath(g, p, |p| - 1);
      PrefixWeight(g, q, k);
      assert q[..k] == p[..k];
      LastEdge(g, p);
      assert Weight(g, p) == Weight(g, q) + g[p[|p| - 2]][p[|p| - 1]];
    } else {
      assert p[..k] == p;
    }
  }

  /**
    A potential `h` that no edge decreases by more than its weight bounds every
    path from below by the difference of the potentials of its ends.
   */
  lemma {:induction false} PotentialBound<A(!new)>(g: Graph<A>, h: A -> int, p: seq<A>)
    requires IsPath(g, p)
    requires forall u, v :: Edge(g, u, v) ==> h(v) <= h(u) + g[u][v]
    ensures h(p[|p| - 1]) - h(p[0]) <= Weight(g, p)
    decreases |p|
  {
    if |p| > 1 {
      var q := p[..|p| - 1];
      PrefixWeight(g, p, |p| - 1);
      PotentialBound(g, h, q);
      LastEdge(g, p);
    }
  }

  /** A potential with `h(s) == 0` bounds the shortest distance from `s` to `t` from below. */
  lemma PotentialBoundsDistance<A(!new)>(g: Graph<A>, h: A -> int, s: A, t: A)
    requires forall u, v :: Edge(g, u, v) ==> h(v) <= h(u) + g[u][v]
    requires Reachable(g, s, t)
    ensures ShortestDistance(g, s, t) >= h(t) - h(s)
  {
    var d := ShortestDistance(g, s, t);
    var p :| IsPathFrom(g, p, s, t) && Weight(g, p) == d;
    PotentialBound(g, h, p);
  }
  /** Any path bounds the shortest distance from above. */
  lemma PathBoundsDistance<A(!new)>(g: Graph<A>, p: seq<A>, s: A, t: A)
    requires IsPathFrom(g, p, s, t)
    ensures 0 <= ShortestDistance(g, s, t) <= Weight(g, p)
  {
  }

  /** A single edge is a path weighing that edge. */
  lemma EdgePath<A(!new)>(g: Graph<A>, a: A, b: A)
    requires Edge(g, a, b)
    ensures IsPathFrom(g, [a, b], a, b) && Weight(g, [a, b]) == g[a][b]
  {
    assert [a, b][..1] == [a];
  }

  /** Two consecutive edges form a path weighing their sum. */
  lemma TwoEdgePath<A(!new)>(g: Graph<A>, a: A, b: A, c: A)
    requires Edge(g, a, b) && Edge(g, b, c)
    ensures IsPathFrom(g, [a, b, c], a, c) && Weight(g, [a, b, c]) == g[a][b] + g[b][c]
  {
    EdgePath(g, b, c);
    WeightPrepend(g, a, [b, c]);
    assert [a] + [b, c] == [a, b, c];
  }
}
