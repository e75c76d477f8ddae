/**
 Weighted graphs as adjacency maps, tentative distances with an infinity
 sentinel, and the path-weight specification that every distance table
 computed by the search is judged against.
 */
module Graphs {

  /** Each node maps its neighbours to non-negative edge weights. An edge
      u -> v does not imply v -> u. The source's nodes are strings, which
      its heap can order when two entries tie on distance; the model asks
      only for equality, since it takes any least-distance entry. */
  type Graph<N> = map<N, map<N, nat>>

  /** A tentative distance: the `float('infinity')` sentinel or a finite sum. */
  datatype Dist = Inf | Fin(n: nat)

  /** A distance table, from node to its best known distance. */
  type Table<N> = map<N, Dist>

  /** `a < b` as Python compares numbers against `float('infinity')`. */
  predicate Less(a: Dist, b: Dist) {
    match (a, b)
    case (Fin(x), Fin(y)) => x < y
    case (Fin(_), Inf) => true
    case (Inf, _) => false
  }

  predicate Le(a: Dist, b: Dist) {
    !Less(b, a)
  }

  /** The distance kept by one relaxation: the candidate only if it is strictly smaller. */
  function MinDist(current: Dist, candidate: Dist): Dist {
    if Less(candidate, current) then candidate else current
  }

  /** `u -> v` is an edge: `u` is a key of the graph and `v` one of its neighbours. */
  predicate Edge<N(!new)>(g: Graph<N>, u: N, v: N) {
    u in g && v in g[u]
  }

  function Last<N(!new)>(p: seq<N>): N
    requires |p| > 0
  {
    p[|p| - 1]
  }

  /** A non-empty node sequence whose consecutive nodes are joined by edges.
      Every node but the last is a key of the graph; the last need not be. */
  predicate IsPath<N(!new)>(g: Graph<N>, p: seq<N>)
    decreases |p|
  {
    && |p| > 0
    && (|p| == 1 || (IsPath(g, p[..|p| - 1]) && Edge(g, p[|p| - 2], p[|p| - 1])))
  }

  /** The total edge weight along a path. */
  function Weight<N(!new)>(g: Graph<N>, p: seq<N>): nat
    requires IsPath(g, p)
    decreases |p|
  {
    if |p| == 1 then 0 else Weight(g, p[..|p| - 1]) + g[p[|p| - 2]][p[|p| - 1]]
  }

  ghost predicate PathFrom<N(!new)>(g: Graph<N>, s: N, p: seq<N>) {
    IsPath(g, p) && p[0] == s
  }

  /** Some path leads from `s` to `u`. */
  ghost predicate Reachable<N(!new)>(g: Graph<N>, s: N, u: N) {
    exists p :: PathFrom(g, s, p) && Last(p) == u
  }

  /** Some path from `s` to `u` weighs exactly `d`. */
  ghost predicate Achievable<N(!new)>(g: Graph<N>, s: N, u: N, d: nat) {
    exists p :: PathFrom(g, s, p) && Last(p) == u && Weight(g, p) == d
  }

  /** Every node reachable from `s`, `s` itself included, is a key of the graph. */
  ghost predicate ClosedFrom<N(!new)>(g: Graph<N>, s: N) {
    forall p :: PathFrom(g, s, p) ==> Last(p) in g
  }

  /** Every neighbour named anywhere in the graph is a key of the graph. */
  predicate Closed<N(!new)>(g: Graph<N>) {
    forall u, v :: u in g && v in g[u] ==> v in g
  }

  /** Every finite entry of `t` is the weight of some path from `s`. */
  ghost predicate Sound<N(!new)>(g: Graph<N>, s: N, t: Table<N>) {
    forall u :: u in t && t[u].Fin? ==> Achievable(g, s, u, t[u].n)
  }

  /** Every path from `s` ends at a node of `t` whose entry is at most the path's weight. */
  ghost predicate Optimal<N(!new)>(g: Graph<N>, s: N, t: Table<N>) {
    forall p :: PathFrom(g, s, p) ==> Last(p) in t && Le(t[Last(p)], Fin(Weight(g, p)))
  }

  /** `t` is the shortest-distance table of `g` from `s`: one entry per key of
      the graph, 0 at the start, each finite entry achieved by a path and no
      path shorter than the entry of its end node. */
  ghost predicate ShortestTable<N(!new)>(g: Graph<N>, s: N, t: Table<N>) {
    && t.Keys == g.Keys
    && s in t && t[s] == Fin(0)
    && Sound(g, s, t)
    && Optimal(g, s, t)
  }

  /** No out-edge of the finite node `u` can improve its neighbour any more. */
  predicate Relaxed<N(!new)>(g: Graph<N>, t: Table<N>, u: N) {
    && u in t && t[u].Fin? && u in g
    && forall v :: v in g[u] ==> v in t && Le(t[v], Fin(t[u].n + g[u][v]))
  }

  lemma LeTransitive(a: Dist, b: Dist, c: Dist)
    requires Le(a, b) && Le(b, c)
    ensures Le(a, c)
  {
  }

  /** Appending an edge to a path gives a path whose weight grows by that edge's weight. */
  lemma ExtendPath<N(!new)>(g: Graph<N>, p: seq<N>, v: N)
    requires IsPath(g, p) && Edge(g, Last(p), v)
    ensures IsPath(g, p + [v]) && (p + [v])[0] == p[0] && Last(p + [v]) == v
    ensures Weight(g, p + [v]) == Weight(g, p) + g[Last(p)][v]
  {
    assert (p + [v])[..|p|] == p;
  }

  /** A distance achieved at `u` extends along any out-edge of `u`. */
  lemma AchievableExtend<N(!new)>(g: Graph<N>, s: N, u: N, d: nat, v: N)
    requires Achievable(g, s, u, d) && Edge(g, u, v)
    ensures Achievable(g, s, v, d + g[u][v])
  {
    var p :| PathFrom(g, s, p) && Last(p) == u && Weight(g, p) == d;
    ExtendPath(g, p, v);
    assert PathFrom(g, s, p + [v]);
  }

  /** A reachable node outside the graph's keys breaks closedness. */
  lemma EscapeNotClosed<N(!new)>(g: Graph<N>, s: N, u: N, d: nat, v: N)
    requires Achievable(g, s, u, d) && u in g && v in g[u] && v !in g
    ensures !ClosedFrom(g, s)
  {
    var p :| PathFrom(g, s, p) && Last(p) == u && Weight(g, p) == d;
    ExtendPath(g, p, v);
    assert PathFrom(g, s, p + [v]);
  }

  /** A start node that is not a key of the graph is itself an escape. */
  lemma StartMissingNotClosed<N(!new)>(g: Graph<N>, s: N)
    requires s !in g
    ensures !ClosedFrom(g, s)
  {
    assert PathFrom(g, s, [s]);
  }

  /** In a graph whose neighbours are all keys, everything reachable from a key is a key. */
  lemma ClosedIsClosedFrom<N(!new)>(g: Graph<N>, s: N)
    requires Closed(g) && s in g
    ensures ClosedFrom(g, s)
  {
    forall p | PathFrom(g, s, p)
      ensures Last(p) in g
    {
      if |p| > 1 {
        assert Edge(g, p[|p| - 2], p[|p| - 1]);
      }
    }
  }

  /** A table that holds 0 at the start and leaves no out-edge of a finite
      node relaxable bounds every path from the start: its end node has an
      entry no greater than the path's weight. */
  lemma {:induction false} RelaxedBoundsPath<N(!new)>(g: Graph<N>, s: N, t: Table<N>, p: seq<N>)
    requires s in t && t[s] == Fin(0)
    requires forall u :: u in t && t[u].Fin? ==> Relaxed(g, t, u)
    requires PathFrom(g, s, p)
    ensures Last(p) in t && Le(t[Last(p)], Fin(Weight(g, p)))
    decreases |p|
  {
    if |p| > 1 {
      var prefix := p[..|p| - 1];
      assert PathFrom(g, s, prefix);
      RelaxedBoundsPath(g, s, t, prefix);
      var u := Last(prefix);
      assert Relaxed(g, t, u);
      assert u == p[|p| - 2];
    }
  }

  /** The table-wide form of RelaxedBoundsPath. */
  lemma RelaxedIsOptimal<N(!new)>(g: Graph<N>, s: N, t: Table<N>)
    requires s in t && t[s] == Fin(0)
    requires forall u :: u in t && t[u].Fin? ==> Relaxed(g, t, u)
    ensures Optimal(g, s, t)
  {
    forall p | PathFrom(g, s, p)
      ensures Last(p) in t && Le(t[Last(p)], Fin(Weight(g, p)))
    {
      RelaxedBoundsPath(g, s, t, p);
    }
  }

  /** In a sound and optimal table, exactly the reachable nodes have finite entries. */
  lemma ShortestReachability<N(!new)>(g: Graph<N>, s: N, t: Table<N>)
    requires Sound(g, s, t) && Optimal(g, s, t)
    ensures forall u :: u in t ==> (t[u].Fin? <==> Reachable(g, s, u))
  {
    forall u | u in t
      ensures t[u].Fin? <==> Reachable(g, s, u)
    {
      if t[u].Fin? {
        var p :| PathFrom(g, s, p) && Last(p) == u && Weight(g, p) == t[u].n;
      }
      if Reachable(g, s, u) {
        var p :| PathFrom(g, s, p) && Last(p) == u;
        assert Le(t[u], Fin(Weight(g, p)));
      }
    }
  }

  /** The shortest-distance table is unique: any two tables meeting the
      specification agree everywhere, so the result cannot depend on which
      minimal frontier entry is expanded first or on neighbour order. */
  lemma ShortestUnique<N(!new)>(g: Graph<N>, s: N, t1: Table<N>, t2: Table<N>)
    requires ShortestTable(g, s, t1) && ShortestTable(g, s, t2)
    ensures t1 == t2
  {
    forall u | u in t1
      ensures t1[u] == t2[u]
    {
      if t1[u].Fin? {
        var p :| PathFrom(g, s, p) && Last(p) == u && Weight(g, p) == t1[u].n;
        assert Le(t2[u], t1[u]);
      }
      if t2[u].Fin? {
        var p :| PathFrom(g, s, p) && Last(p) == u && Weight(g, p) == t2[u].n;
        assert Le(t1[u], t2[u]);
      }
    }
  }
}
