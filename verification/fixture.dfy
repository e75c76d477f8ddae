/**
 The module-level example: an eleven-node undirected graph searched from
 `A` for the nearest of the end nodes `G`, `H`, `I`, `J`, `K`.
 */
module Fixture {
  import opened Wrappers
  import opened Graphs
  import opened ShortestPaths

  /** The node names `"A"` to `"K"` of the example. */
  datatype Name = A | B | C | D | E | F | G | H | I | J | K

  function Names(): set<Name> {
    {A, B, C, D, E, F, G, H, I, J, K}
  }

  /** One row of the example graph literal: the neighbours of `u` and their distances. */
  function Neighbours(u: Name): map<Name, nat> {
    match u
    case A => map[B := 5]
    case B => map[A := 5, C := 3, D := 4, E := 6]
    case C => map[B := 3, E := 2]
    case D => map[B := 4, F := 4]
    case E => map[B := 6, C := 2, F := 3, G := 7, H := 5]
    case F => map[D := 4, E := 3]
    case G => map[E := 7]
    case H => map[E := 5, I := 4]
    case I => map[H := 4, J := 6]
    case J => map[I := 6, K := 5]
    case K => map[J := 5]
  }

  function ExampleGraph(): Graph<Name> {
    map u | u in Names() :: Neighbours(u)
  }

  function ExampleEndNodes(): seq<Name> {
    [G, H, I, J, K]
  }

  /** The distances from `A`. `E` is 10 by A-B-C-E (5 + 3 + 2), not 11 by
      A-B-E, so `H` is 15 and `G` is 17. */
  function Expected(u: Name): nat {
    match u
    case A => 0
    case B => 5
    case C => 8
    case D => 9
    case E => 10
    case F => 13
    case G => 17
    case H => 15
    case I => 19
    case J => 25
    case K => 30
  }

  function ExpectedTable(): Table<Name> {
    map u | u in Names() :: Fin(Expected(u))
  }

  /** The distances of `A` to `E`, each the weight of a path from `A`
      extended edge by edge along a shortest-path tree. */
  lemma NearPathsExist()
    ensures Achievable(ExampleGraph(), A, A, 0)
    ensures Achievable(ExampleGraph(), A, B, 5)
    ensures Achievable(ExampleGraph(), A, C, 8)
    ensures Achievable(ExampleGraph(), A, D, 9)
    ensures Achievable(ExampleGraph(), A, E, 10)
  {
    var g := ExampleGraph();
    assert PathFrom(g, A, [A]);
    AchievableExtend(g, A, A, 0, B);
    AchievableExtend(g, A, B, 5, C);
    AchievableExtend(g, A, B, 5, D);
    AchievableExtend(g, A, C, 8, E);
  }

  /** The distances of `F` to `H`, continuing the tree from `D` and `E`. */
  lemma MiddlePathsExist()
    ensures Achievable(ExampleGraph(), A, F, 13)
    ensures Achievable(ExampleGraph(), A, G, 17)
    ensures Achievable(ExampleGraph(), A, H, 15)
  {
    var g := ExampleGraph();
    NearPathsExist();
    AchievableExtend(g, A, D, 9, F);
    AchievableExtend(g, A, E, 10, G);
    AchievableExtend(g, A, E, 10, H);
  }

  /** The distances of `I` to `K`, continuing the tree along the chain from `H`. */
  lemma FarPathsExist()
    ensures Achievable(ExampleGraph(), A, I, 19)
    ensures Achievable(ExampleGraph(), A, J, 25)
    ensures Achievable(ExampleGraph(), A, K, 30)
  {
    var g := ExampleGraph();
    MiddlePathsExist();
    AchievableExtend(g, A, H, 15, I);
    AchievableExtend(g, A, I, 19, J);
    AchievableExtend(g, A, J, 25, K);
  }

  /** The expected distance of one node is the weight of a path from `A`. */
  lemma ExpectedDistanceAchieved(u: Name)
    ensures Achievable(ExampleGraph(), A, u, Expected(u))
  {
    match u
    case A | B | C | D | E => NearPathsExist();
    case F | G | H => MiddlePathsExist();
    case I | J | K => FarPathsExist();
  }

  /** Every distance of the expected table is the weight of a path from `A`. */
  lemma ExpectedTableSound()
    ensures Sound(ExampleGraph(), A, ExpectedTable())
  {
    forall u | u in ExpectedTable()
      ensures Achievable(ExampleGraph(), A, u, ExpectedTable()[u].n)
    {
      ExpectedDistanceAchieved(u);
    }
  }

  /** No out-edge of `u` can improve the expected distance of its neighbour. */
  lemma ExpectedRelaxedAt(u: Name)
    ensures Relaxed(ExampleGraph(), ExpectedTable(), u)
  {
    var t := ExpectedTable();
    assert u in Names();
    forall v | v in Neighbours(u)
      ensures v in t && Le(t[v], Fin(Expected(u) + Neighbours(u)[v]))
    {
      assert v in Names();
    }
  }

  /** The expected table is the shortest-distance table of the example graph from `A`. */
  lemma ExpectedTableIsShortest()
    ensures ShortestTable(ExampleGraph(), A, ExpectedTable())
  {
    var g, t := ExampleGraph(), ExpectedTable();
    ExpectedTableSound();
    forall u | u in t && t[u].Fin?
      ensures Relaxed(g, t, u)
    {
      ExpectedRelaxedAt(u);
    }
    RelaxedIsOptimal(g, A, t);
  }

  /** Every neighbour named in the example graph is one of its keys. */
  lemma ExampleClosed()
    ensures Closed(ExampleGraph())
  {
    var g := ExampleGraph();
    forall u, v | u in g && v in g[u]
      ensures v in g
    {
      assert v in Names();
    }
  }

  /** Under the expected table, `H` is the only first nearest end node. */
  lemma NearestIsH(n: Name)
    requires IsFirstNearest(ExpectedTable(), ExampleEndNodes(), n)
    ensures n == H
  {
    var t, ends := ExpectedTable(), ExampleEndNodes();
    assert ends[1] == H && H in t;
    assert Le(t[n], t[H]);
  }

  /** The script's own call: from `A` the nearest end node is `H`, at 15. */
  method NearestExampleEndNode() returns (r: Result<(Name, Dist), Error>)
    ensures r == Success((H, Fin(15)))
  {
    var g, ends := ExampleGraph(), ExampleEndNodes();
    ExampleClosed();
    ClosedIsClosedFrom(g, A);
    assert ends[1] in g;
    r := ShortestPathToEndNodes(g, A, ends);
    ExpectedTableIsShortest();
    NearestIsH(r.value.0);
  }
}
