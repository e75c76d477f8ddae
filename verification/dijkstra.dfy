/**
 The single-source search `dijkstra(graph, start)` and the nearest-end-node
 query `dijkstra_shortest_path_to_end_nodes(graph, start, end_nodes)`.

 The frontier is a multiset of (distance, node) entries from which some
 entry of least distance is removed; stale entries are neither skipped nor
 deduplicated. A `KeyError` raised by a graph or table lookup becomes
 `Failure(KeyError)`, and the `ValueError` of `min` over an empty mapping
 becomes `Failure(ValueError)`.
 */
module ShortestPaths {
  import opened Wrappers
  import opened Graphs

  /** The exceptions the source can raise. */
  datatype Error = KeyError | ValueError

  /** A frontier entry: a tentative distance and the node it belongs to. */
  datatype Entry<N> = Entry(d: nat, node: N)

  /** Every frontier entry names a node of the table, is no smaller than
      that node's entry, and is the weight of a path from the start. */
  ghost predicate FrontierInv<N(!new)>(g: Graph<N>, s: N, dist: Table<N>, q: multiset<Entry<N>>) {
    forall x :: x in q ==>
      x.node in dist && Le(dist[x.node], Fin(x.d)) && Achievable(g, s, x.node, x.d)
  }

  /** Every finite table entry is the weight of a path from the start, and
      either still waits in the frontier as an exact entry or has all its
      out-edges relaxed. */
  ghost predicate TableInv<N(!new)>(g: Graph<N>, s: N, dist: Table<N>, q: multiset<Entry<N>>) {
    forall u :: u in dist && dist[u].Fin? ==>
      && Achievable(g, s, u, dist[u].n)
      && (Entry(dist[u].n, u) in q || Relaxed(g, dist, u))
  }

  /** The search loop's invariant for table `dist` and frontier `q`. */
  ghost predicate Inv<N(!new)>(g: Graph<N>, s: N, dist: Table<N>, q: multiset<Entry<N>>) {
    && dist.Keys == g.Keys
    && s in dist && dist[s] == Fin(0)
    && FrontierInv(g, s, dist, q)
    && TableInv(g, s, dist, q)
  }

  /** Relaxing `e`'s out-edges strictly improves the neighbour `v`. */
  predicate Improves<N(==,!new)>(g: Graph<N>, dist: Table<N>, e: Entry<N>, v: N) {
    e.node in g && v in g[e.node] && v in dist && Less(Fin(e.d + g[e.node][v]), dist[v])
  }

  /** The effect of expanding entry `e`, from (`dist`, `q`) to (`dist'`, `q'`):
      each neighbour of `e.node` ends at the smaller of its old distance and
      `e.d` plus the edge weight, every other node keeps its distance, and
      exactly one entry is pushed per strictly improved neighbour, carrying
      that neighbour's new distance. */
  ghost predicate Relaxation<N(!new)>(g: Graph<N>, dist: Table<N>, q: multiset<Entry<N>>, e: Entry<N>,
                             dist': Table<N>, q': multiset<Entry<N>>)
    requires e.node in g
  {
    && dist'.Keys == dist.Keys
    && (forall v :: v in dist && v !in g[e.node] ==> dist'[v] == dist[v])
    && (forall v :: v in g[e.node] && v in dist ==>
          dist'[v] == MinDist(dist[v], Fin(e.d + g[e.node][v])))
    && (forall x :: q'[x] == q[x] +
          (if Improves(g, dist, e, x.node) && Fin(x.d) == dist'[x.node] then 1 else 0))
  }

  /** The nodes still at infinity. */
  ghost function InfNodes<N(!new)>(dist: Table<N>): set<N> {
    set u | u in dist && dist[u] == Inf
  }

  /** One pair (u, k) for every k below the finite distance of u. */
  ghost function BelowPairs<N(!new)>(dist: Table<N>): set<(N, nat)> {
    set u, k: nat | u in dist && dist[u].Fin? && k < dist[u].n :: (u, k)
  }

  /** A table that only went down and changed somewhere is smaller in the
      lexicographic (InfNodes, BelowPairs) order: a node leaving infinity
      shrinks the first set, and a finite distance strictly decreasing
      shrinks the second while the first stays. */
  lemma MeasureDecreases<N(!new)>(dist: Table<N>, dist': Table<N>)
    requires dist'.Keys == dist.Keys
    requires forall v :: v in dist ==> Le(dist'[v], dist[v])
    requires dist' != dist
    ensures InfNodes(dist') < InfNodes(dist)
         || (InfNodes(dist') == InfNodes(dist) && BelowPairs(dist') < BelowPairs(dist))
  {
    assert InfNodes(dist') <= InfNodes(dist);
    var v :| v in dist && dist'[v] != dist[v];
    if dist[v] == Inf {
      assert v in InfNodes(dist) && v !in InfNodes(dist');
    } else if InfNodes(dist') == InfNodes(dist) {
      var b := dist'[v].n;
      assert (v, b) in BelowPairs(dist);
      assert (v, b) !in BelowPairs(dist');
      forall pair | pair in BelowPairs(dist')
        ensures pair in BelowPairs(dist)
      {
        var u := pair.0;
        assert u !in InfNodes(dist');
      }
    }
  }

  /** `e` is a frontier entry of least distance. */
  predicate IsMinEntry<N(==,!new)>(q: multiset<Entry<N>>, e: Entry<N>) {
    e in q && forall x :: x in q ==> e.d <= x.d
  }

  /** Every non-empty frontier has an entry of least distance. */
  lemma {:induction false} MinimumExists<N(!new)>(q: multiset<Entry<N>>)
    requires q != multiset{}
    ensures exists e :: IsMinEntry(q, e)
    decreases |q|
  {
    var y :| y in q;
    var rest := q - multiset{y};
    if rest == multiset{} {
      forall x | x in q
        ensures y.d <= x.d
      {
        assert x == y || x in rest;
      }
      assert IsMinEntry(q, y);
    } else {
      MinimumExists(rest);
      var m :| IsMinEntry(rest, m);
      var least := if y.d < m.d then y else m;
      forall x | x in q
        ensures least.d <= x.d
      {
        if x != y {
          assert x in rest;
        }
      }
      assert IsMinEntry(q, least);
    }
  }

  /** `heapq.heappop`: some entry of least distance. Which of several such
      entries is taken is left open. */
  method PopMin<N(==,!new)>(q: multiset<Entry<N>>) returns (e: Entry<N>)
    requires q != multiset{}
    ensures e in q
    ensures forall x :: x in q ==> e.d <= x.d
  {
    MinimumExists(q);
    e :| IsMinEntry(q, e);
  }

  /** The inner loop over the neighbours of the popped node: the candidate
      `e.d + weight` replaces a neighbour's distance, and is pushed, only
      when it is strictly smaller. */
  method Relax<N(==,!new)>(g: Graph<N>, dist: Table<N>, q: multiset<Entry<N>>, e: Entry<N>)
    returns (dist': Table<N>, q': multiset<Entry<N>>)
    requires e.node in g && g[e.node].Keys <= dist.Keys
    ensures Relaxation(g, dist, q, e, dist', q')
  {
    var u := e.node;
    var todo := g[u].Keys;
    dist' := dist;
    q' := q;
    while todo != {}
      invariant todo <= g[u].Keys
      invariant dist'.Keys == dist.Keys
      invariant forall v :: v in dist && (v !in g[u] || v in todo) ==> dist'[v] == dist[v]
      invariant forall v :: v in g[u] && v !in todo ==>
                  dist'[v] == MinDist(dist[v], Fin(e.d + g[u][v]))
      invariant forall x :: q'[x] == q[x] +
                  (if x.node !in todo && Improves(g, dist, e, x.node) && Fin(x.d) == dist'[x.node]
                   then 1 else 0)
      decreases todo
    {
      var v :| v in todo;
      var candidate := e.d + g[u][v];
      if Less(Fin(candidate), dist'[v]) {
        dist' := dist'[v := Fin(candidate)];
        q' := q' + multiset{Entry(candidate, v)};
      }
      todo := todo - {v};
    }
  }

  /** Relaxation never raises a distance. */
  lemma RelaxationLowers<N(!new)>(g: Graph<N>, dist: Table<N>, q: multiset<Entry<N>>, e: Entry<N>,
                         dist': Table<N>, q': multiset<Entry<N>>)
    requires e.node in g
    requires Relaxation(g, dist, q, e, dist', q')
    ensures forall v :: v in dist ==> v in dist' && Le(dist'[v], dist[v])
  {
    forall v | v in dist
      ensures v in dist' && Le(dist'[v], dist[v])
    {
      if v in g[e.node] {
        assert dist'[v] == MinDist(dist[v], Fin(e.d + g[e.node][v]));
      }
    }
  }

  /** A strictly improved neighbour gets the candidate distance, which some path achieves. */
  lemma ImprovedAchievable<N(!new)>(g: Graph<N>, s: N, dist: Table<N>, q: multiset<Entry<N>>, e: Entry<N>,
                           dist': Table<N>, q': multiset<Entry<N>>, v: N)
    requires e.node in g && Achievable(g, s, e.node, e.d)
    requires Relaxation(g, dist, q, e, dist', q')
    requires Improves(g, dist, e, v)
    ensures dist'[v] == Fin(e.d + g[e.node][v])
    ensures Achievable(g, s, v, e.d + g[e.node][v])
  {
    AchievableExtend(g, s, e.node, e.d, v);
  }

  /** Expanding a popped entry keeps the frontier part of the invariant. */
  lemma StepFrontier<N(!new)>(g: Graph<N>, s: N, dist: Table<N>, q: multiset<Entry<N>>, e: Entry<N>,
                     dist': Table<N>, q': multiset<Entry<N>>)
    requires Inv(g, s, dist, q) && e in q
    requires e.node in g && g[e.node].Keys <= dist.Keys
    requires Relaxation(g, dist, q - multiset{e}, e, dist', q')
    ensures FrontierInv(g, s, dist', q')
  {
    var rest := q - multiset{e};
    RelaxationLowers(g, dist, rest, e, dist', q');
    forall x | x in q'
      ensures x.node in dist' && Le(dist'[x.node], Fin(x.d)) && Achievable(g, s, x.node, x.d)
    {
      if x in rest {
        LeTransitive(dist'[x.node], dist[x.node], Fin(x.d));
      } else {
        assert Improves(g, dist, e, x.node);
        ImprovedAchievable(g, s, dist, rest, e, dist', q', x.node);
      }
    }
  }

  /** A node whose distance the expansion of `e` lowered waits in the new
      frontier with its new distance. */
  lemma StepTableImproved<N(!new)>(g: Graph<N>, s: N, dist: Table<N>, q: multiset<Entry<N>>, e: Entry<N>,
                          dist': Table<N>, q': multiset<Entry<N>>, w: N)
    requires Inv(g, s, dist, q) && e in q
    requires e.node in g && g[e.node].Keys <= dist.Keys
    requires Relaxation(g, dist, q - multiset{e}, e, dist', q')
    requires w in dist && dist'[w] != dist[w]
    ensures dist'[w].Fin? && Achievable(g, s, w, dist'[w].n) && Entry(dist'[w].n, w) in q'
  {
    var rest := q - multiset{e};
    assert dist'[w] == MinDist(dist[w], Fin(e.d + g[e.node][w]));
    assert Improves(g, dist, e, w);
    ImprovedAchievable(g, s, dist, rest, e, dist', q', w);
    var x := Entry(dist'[w].n, w);
    assert q'[x] == rest[x] + 1;
  }

  /** The popped entry was exact for its node: after the expansion every
      out-edge of that node is relaxed. */
  lemma StepTableExpanded<N(!new)>(g: Graph<N>, s: N, dist: Table<N>, q: multiset<Entry<N>>, e: Entry<N>,
                          dist': Table<N>, q': multiset<Entry<N>>)
    requires e.node in g && g[e.node].Keys <= dist.Keys
    requires Relaxation(g, dist, q - multiset{e}, e, dist', q')
    requires e.node in dist && dist'[e.node] == dist[e.node] == Fin(e.d)
    ensures Relaxed(g, dist', e.node)
  {
    var u := e.node;
    forall v | v in g[u]
      ensures v in dist' && Le(dist'[v], Fin(dist'[u].n + g[u][v]))
    {
      assert dist'[v] == MinDist(dist[v], Fin(e.d + g[u][v]));
    }
  }

  /** An out-edge already relaxed stays relaxed while distances only go down
      and the source node keeps its distance. */
  lemma RelaxedStays<N(!new)>(g: Graph<N>, dist: Table<N>, dist': Table<N>, w: N)
    requires Relaxed(g, dist, w)
    requires dist'.Keys == dist.Keys
    requires forall v :: v in dist ==> Le(dist'[v], dist[v])
    requires dist'[w] == dist[w]
    ensures Relaxed(g, dist', w)
  {
    forall v | v in g[w]
      ensures v in dist' && Le(dist'[v], Fin(dist'[w].n + g[w][v]))
    {
      LeTransitive(dist'[v], dist[v], Fin(dist[w].n + g[w][v]));
    }
  }

  /** Expanding a popped entry keeps the table part of the invariant. */
  lemma StepTable<N(!new)>(g: Graph<N>, s: N, dist: Table<N>, q: multiset<Entry<N>>, e: Entry<N>,
                  dist': Table<N>, q': multiset<Entry<N>>)
    requires Inv(g, s, dist, q) && e in q
    requires e.node in g && g[e.node].Keys <= dist.Keys
    requires Relaxation(g, dist, q - multiset{e}, e, dist', q')
    ensures TableInv(g, s, dist', q')
  {
    var rest := q - multiset{e};
    RelaxationLowers(g, dist, rest, e, dist', q');
    forall w | w in dist' && dist'[w].Fin?
      ensures Achievable(g, s, w, dist'[w].n)
      ensures Entry(dist'[w].n, w) in q' || Relaxed(g, dist', w)
    {
      var x := Entry(dist'[w].n, w);
      if dist'[w] != dist[w] {
        StepTableImproved(g, s, dist, q, e, dist', q', w);
      } else if x == e {
        StepTableExpanded(g, s, dist, q, e, dist', q');
      } else if x in q {
        assert x in rest;
        assert q'[x] >= rest[x];
      } else {
        RelaxedStays(g, dist, dist', w);
      }
    }
  }

  /** Expanding a popped entry whose neighbours are all in the table keeps
      the invariant. */
  lemma StepPreserves<N(!new)>(g: Graph<N>, s: N, dist: Table<N>, q: multiset<Entry<N>>, e: Entry<N>,
                      dist': Table<N>, q': multiset<Entry<N>>)
    requires Inv(g, s, dist, q) && e in q
    requires e.node in g && g[e.node].Keys <= dist.Keys
    requires Relaxation(g, dist, q - multiset{e}, e, dist', q')
    ensures Inv(g, s, dist', q')
  {
    StepFrontier(g, s, dist, q, e, dist', q');
    StepTable(g, s, dist, q, e, dist', q');
    if s in g[e.node] {
      assert dist'[s] == MinDist(dist[s], Fin(e.d + g[e.node][s]));
    }
  }

  /** A popped node with a neighbour outside the table shows an escape from the graph. */
  lemma DanglingNotClosed<N(!new)>(g: Graph<N>, s: N, dist: Table<N>, q: multiset<Entry<N>>, e: Entry<N>)
    requires Inv(g, s, dist, q) && e in q
    requires e.node in g && !(g[e.node].Keys <= dist.Keys)
    ensures !ClosedFrom(g, s)
  {
    var v :| v in g[e.node] && v !in dist;
    EscapeNotClosed(g, s, e.node, e.d, v);
  }

  /** With the frontier exhausted, the invariant yields the shortest-distance table. */
  lemma InvAtExit<N(!new)>(g: Graph<N>, s: N, dist: Table<N>)
    requires Inv(g, s, dist, multiset{})
    ensures ShortestTable(g, s, dist) && ClosedFrom(g, s)
    ensures forall u :: u in dist ==> (dist[u].Fin? <==> Reachable(g, s, u))
  {
    RelaxedIsOptimal(g, s, dist);
    ShortestReachability(g, s, dist);
  }

  /** One expansion shrinks the loop measure (InfNodes, BelowPairs, frontier
      size) lexicographically: either some distance went down, or nothing was
      pushed and the frontier lost the popped entry. */
  lemma StepDecreases<N(!new)>(g: Graph<N>, dist: Table<N>, rest: multiset<Entry<N>>, e: Entry<N>,
                               dist': Table<N>, q': multiset<Entry<N>>)
    requires e.node in g
    requires Relaxation(g, dist, rest, e, dist', q')
    ensures || InfNodes(dist') < InfNodes(dist)
            || (InfNodes(dist') == InfNodes(dist) && BelowPairs(dist') < BelowPairs(dist))
            || (dist' == dist && q' == rest)
  {
    RelaxationLowers(g, dist, rest, e, dist', q');
    if dist' == dist {
      assert forall x :: q'[x] == rest[x];
      assert q' == rest;
    } else {
      MeasureDecreases(dist, dist');
    }
  }

  /** The table and frontier before the first pop: every key of the graph
      at infinity except the start at 0, and the single entry (0, start). */
  lemma InitialInv<N(!new)>(g: Graph<N>, s: N, dist: Table<N>)
    requires s in g
    requires dist == (map u | u in g :: Inf)[s := Fin(0)]
    ensures Inv(g, s, dist, multiset{Entry(0, s)})
  {
    assert PathFrom(g, s, [s]);
  }

  /** `dijkstra(graph, start)`. */
  method Dijkstra<N(==,!new)>(g: Graph<N>, start: N) returns (r: Result<Table<N>, Error>)
    ensures r.Success? <==> ClosedFrom(g, start)
    ensures r.Failure? ==> r.error == KeyError
    ensures r.Success? ==> r.value.Keys == g.Keys
    ensures r.Success? ==> start in r.value && r.value[start] == Fin(0)
    ensures r.Success? ==> Sound(g, start, r.value) && Optimal(g, start, r.value)
    ensures r.Success? ==> forall u :: u in r.value ==> (r.value[u].Fin? <==> Reachable(g, start, u))
  {
    if start !in g {
      // the start entry is added to the table, then the first expansion looks it up in the graph
      StartMissingNotClosed(g, start);
      return Failure(KeyError);
    }
    var dist := (map u | u in g :: Inf)[start := Fin(0)];
    var q := multiset{Entry(0, start)};
    InitialInv(g, start, dist);
    while q != multiset{}
      invariant Inv(g, start, dist, q)
      decreases InfNodes(dist), BelowPairs(dist), |q|
    {
      var e := PopMin(q);
      var rest := q - multiset{e};
      if !(g[e.node].Keys <= dist.Keys) {
        DanglingNotClosed(g, start, dist, q, e);
        return Failure(KeyError);
      }
      var dist', q' := Relax(g, dist, rest, e);
      StepPreserves(g, start, dist, q, e, dist', q');
      StepDecreases(g, dist, rest, e, dist', q');
      dist, q := dist', q';
    }
    InvAtExit(g, start, dist);
    return Success(dist);
  }

  /** The position of the first occurrence of `x` in `s`. */
  function IndexOf<N(==,!new)>(s: seq<N>, x: N): (i: nat)
    requires x in s
    ensures i < |s| && s[i] == x
    ensures forall j :: 0 <= j < i ==> s[j] != x
  {
    if s[0] == x then 0 else 1 + IndexOf(s[1..], x)
  }

  /** `n` is what `min(d, key=d.get)` picks from the end nodes kept by the
      filter `node in t`: a kept end node whose distance is no greater than
      any kept end node's, and strictly smaller than that of every kept end
      node listed before its first occurrence. */
  ghost predicate IsFirstNearest<N(!new)>(t: Table<N>, ends: seq<N>, n: N) {
    && n in ends && n in t
    && (forall i :: 0 <= i < |ends| && ends[i] in t ==> Le(t[n], t[ends[i]]))
    && (forall i :: 0 <= i < IndexOf(ends, n) && ends[i] in t ==> Less(t[n], t[ends[i]]))
  }

  /** Two nodes both satisfying IsFirstNearest are the same node: the
      tie-break fixes the answer. */
  lemma FirstNearestUnique<N(!new)>(t: Table<N>, ends: seq<N>, n1: N, n2: N)
    requires IsFirstNearest(t, ends, n1) && IsFirstNearest(t, ends, n2)
    ensures n1 == n2
  {
    var i1, i2 := IndexOf(ends, n1), IndexOf(ends, n2);
    // equally near, so neither occurs strictly before the other
    assert ends[i1] == n1 && ends[i2] == n2;
    assert !Less(t[n1], t[n2]) && !Less(t[n2], t[n1]);
  }

  /** The filter `{node: t[node] for node in ends if node in t}` followed by
      `min(..., key=...get)`: a scan in list order that keeps the first end
      node of least distance, replacing it only on a strictly smaller one.
      None stands for the empty mapping on which `min` raises. */
  method NearestEndNode<N(==,!new)>(t: Table<N>, ends: seq<N>) returns (r: Option<N>)
    ensures r.None? <==> forall i :: 0 <= i < |ends| ==> ends[i] !in t
    ensures r.Some? ==> IsFirstNearest(t, ends, r.value)
  {
    var best: Option<nat> := None;
    var i := 0;
    while i < |ends|
      invariant 0 <= i <= |ends|
      invariant best.None? <==> forall j :: 0 <= j < i ==> ends[j] !in t
      invariant best.Some? ==> best.value < i && ends[best.value] in t
      invariant best.Some? ==>
        forall j :: 0 <= j < i && ends[j] in t ==> Le(t[ends[best.value]], t[ends[j]])
      invariant best.Some? ==>
        forall j :: 0 <= j < best.value && ends[j] in t ==> Less(t[ends[best.value]], t[ends[j]])
    {
      if ends[i] in t && (best.None? || Less(t[ends[i]], t[ends[best.value]])) {
        best := Some(i);
      }
      i := i + 1;
    }
    if best.None? {
      return None;
    }
    var k := best.value;
    var n := ends[k];
    // an earlier copy of n would have to be strictly nearer than n itself
    assert !Less(t[n], t[n]);
    assert IndexOf(ends, n) == k;
    return Some(n);
  }

  /** `dijkstra_shortest_path_to_end_nodes(graph, start, end_nodes)`: the
      first end node of least distance among the end nodes that are keys of
      the graph, with its distance, which is infinity when no end node is
      reachable. */
  method ShortestPathToEndNodes<N(==,!new)>(g: Graph<N>, start: N, ends: seq<N>)
    returns (r: Result<(N, Dist), Error>)
    ensures r.Success? <==> ClosedFrom(g, start) && exists i :: 0 <= i < |ends| && ends[i] in g
    ensures r.Failure? ==> (r.error == KeyError <==> !ClosedFrom(g, start))
    ensures r.Success? ==> r.value.0 in ends && r.value.0 in g
    ensures r.Success? ==> forall t :: ShortestTable(g, start, t) ==>
              IsFirstNearest(t, ends, r.value.0) && r.value.1 == t[r.value.0]
    ensures r.Success? ==> (r.value.1.Fin? <==> Reachable(g, start, r.value.0))
  {
    var distances := Dijkstra(g, start);
    if distances.Failure? {
      return Failure(distances.error);
    }
    var table := distances.value;
    assert ShortestTable(g, start, table);
    var nearest := NearestEndNode(table, ends);
    if nearest.None? {
      return Failure(ValueError);
    }
    var n := nearest.value;
    forall t | ShortestTable(g, start, t)
      ensures IsFirstNearest(t, ends, n) && table[n] == t[n]
    {
      ShortestUnique(g, start, table, t);
    }
    return Success((n, table[n]));
  }
}
