/**
 * The composite graph the router searches, and what a correct answer to a
 * travel-cost query is.
 *
 * Vertices are the cells (x = column, y = row) of the grid `g`, a sequence
 * of rows indexed g[y][x]. A cell with cost > 0 has a ground edge to each of its up to six
 * in-grid neighbours, weighted by its own cost (the cost to leave it); each
 * live air route with cost > 0 whose destination lies in the grid is an edge
 * weighted by the route's cost. A cost-0 cell can be entered on the ground but
 * not left on the ground.
 */
module Paths {
  import opened Geometry
  import opened Hexagons

  datatype Pos = Pos(x: int, y: int)

  /** The terrain as a value: row y, column x is g[y][x]. */
  type Grid = seq<seq<Hexagon>>

  /** One step of a walk: the cell it arrives at and the weight of the edge it uses. */
  datatype Hop = Hop(to: Pos, weight: int)

  predicate InGrid(g: Grid, p: Pos) {
    0 <= p.y < |g| && 0 <= p.x < |g[p.y]|
  }

  /** is_valid, with the dimensions it reads passed in: row r and column c lie in a rows x cols grid. */
  predicate IsValid(rows: int, cols: int, r: int, c: int) {
    r >= 0 && r < rows && c >= 0 && c < cols
  }

  /** The i-th neighbour of p in the neighbour table of p's row parity. */
  function Neighbour(p: Pos, i: int): Pos
    requires 0 <= i < 6
  {
    Pos(p.x + DeltaCol(p.y, i), p.y + DeltaRow(p.y, i))
  }

  ghost predicate GroundEdge(g: Grid, u: Pos, v: Pos, w: int)
  {
    && InGrid(g, u) && InGrid(g, v)
    && g[u.y][u.x].cost > 0 && w == g[u.y][u.x].cost
    && exists i | 0 <= i < 6 :: Neighbour(u, i) == v
  }

  ghost predicate AirEdge(g: Grid, u: Pos, v: Pos, w: int)
  {
    && InGrid(g, u) && InGrid(g, v)
    && var h := g[u.y][u.x];
       exists k | 0 <= k < h.numAirRoutes && k < |h.airRoutes| ::
         h.airRoutes[k].cost > 0 && GoesTo(h.airRoutes[k], v.x, v.y) && w == h.airRoutes[k].cost
  }

  ghost predicate Edge(g: Grid, u: Pos, v: Pos, w: int)
  {
    GroundEdge(g, u, v, w) || AirEdge(g, u, v, w)
  }

  /** Where a walk that starts at a and takes the hops p ends. */
  function End(a: Pos, p: seq<Hop>): Pos {
    if p == [] then a else p[|p| - 1].to
  }

  function Weight(p: seq<Hop>): int {
    if p == [] then 0 else Weight(p[..|p| - 1]) + p[|p| - 1].weight
  }

  /** p is a walk from a: every hop follows an edge of g with the hop's weight. */
  ghost predicate IsWalk(g: Grid, a: Pos, p: seq<Hop>)
  {
    p == [] || (IsWalk(g, a, p[..|p| - 1]) && Edge(g, End(a, p[..|p| - 1]), p[|p| - 1].to, p[|p| - 1].weight))
  }

  ghost predicate Reachable(g: Grid, s: Pos, t: Pos)
  {
    exists p :: IsWalk(g, s, p) && End(s, p) == t
  }

  /** Some walk from s to t weighs exactly c. */
  ghost predicate Achievable(g: Grid, s: Pos, t: Pos, c: int)
  {
    exists p :: IsWalk(g, s, p) && End(s, p) == t && Weight(p) == c
  }

  /** No walk from s to t weighs less than c. */
  ghost predicate Optimal(g: Grid, s: Pos, t: Pos, c: int)
  {
    forall p | IsWalk(g, s, p) && End(s, p) == t :: Weight(p) >= c
  }

  ghost predicate IsShortest(g: Grid, s: Pos, t: Pos, c: int)
  {
    Achievable(g, s, t, c) && Optimal(g, s, t, c)
  }

  /** r is the correct answer to the query s -> t: -1 when t is unreachable, the least walk weight otherwise. */
  ghost predicate IsAnswer(g: Grid, s: Pos, t: Pos, r: int)
  {
    if Reachable(g, s, t) then IsShortest(g, s, t, r) else r == -1
  }

  lemma EdgeWeightPositive(g: Grid, u: Pos, v: Pos, w: int)
    requires Edge(g, u, v, w)
    ensures w > 0 && InGrid(g, u) && InGrid(g, v)
  {
  }

  lemma {:induction false} WeightNonNegative(g: Grid, a: Pos, p: seq<Hop>)
    requires IsWalk(g, a, p)
    ensures Weight(p) >= 0
    decreases |p|
  {
    if p != [] {
      WeightNonNegative(g, a, p[..|p| - 1]);
      EdgeWeightPositive(g, End(a, p[..|p| - 1]), p[|p| - 1].to, p[|p| - 1].weight);
    }
  }

  /** A walk followed by an edge out of its end is a walk, one edge heavier. */
  lemma WalkExtend(g: Grid, a: Pos, p: seq<Hop>, v: Pos, w: int)
    requires IsWalk(g, a, p) && Edge(g, End(a, p), v, w)
    ensures IsWalk(g, a, p + [Hop(v, w)])
    ensures End(a, p + [Hop(v, w)]) == v && Weight(p + [Hop(v, w)]) == Weight(p) + w
  {
    assert (p + [Hop(v, w)])[..|p|] == p;
  }

  /** Extending an achievable cost by an edge gives an achievable cost. */
  lemma AchievableExtend(g: Grid, s: Pos, u: Pos, c: int, v: Pos, w: int)
    requires Achievable(g, s, u, c) && Edge(g, u, v, w)
    ensures Achievable(g, s, v, c + w)
  {
    var p :| IsWalk(g, s, p) && End(s, p) == u && Weight(p) == c;
    WalkExtend(g, s, p, v, w);
  }

  lemma AchievableIsNonNegative(g: Grid, s: Pos, t: Pos, c: int)
    requires Achievable(g, s, t, c)
    ensures c >= 0
  {
    var p :| IsWalk(g, s, p) && End(s, p) == t && Weight(p) == c;
    WeightNonNegative(g, s, p);
  }

  /** A query from a cell to itself is answered by 0. */
  lemma SelfAnswer(g: Grid, s: Pos)
    ensures IsAnswer(g, s, s, 0)
  {
    assert IsWalk(g, s, []) && End(s, []) == s && Weight([]) == 0;
    forall p | IsWalk(g, s, p) && End(s, p) == s ensures Weight(p) >= 0 {
      WeightNonNegative(g, s, p);
    }
  }

  /** An answer is -1 exactly when the target is unreachable, and is a cost otherwise. */
  lemma AnswerMeaning(g: Grid, s: Pos, t: Pos, r: int)
    requires IsAnswer(g, s, t, r)
    ensures r == -1 <==> !Reachable(g, s, t)
    ensures r >= -1
  {
    if Reachable(g, s, t) {
      AchievableIsNonNegative(g, s, t, r);
    }
  }

  /** Each query has one answer, so two correct answers on the same grid agree. */
  lemma AnswerUnique(g: Grid, s: Pos, t: Pos, r1: int, r2: int)
    requires IsAnswer(g, s, t, r1) && IsAnswer(g, s, t, r2)
    ensures r1 == r2
  {
    if Reachable(g, s, t) {
      var p1 :| IsWalk(g, s, p1) && End(s, p1) == t && Weight(p1) == r1;
      var p2 :| IsWalk(g, s, p2) && End(s, p2) == t && Weight(p2) == r2;
    }
  }

  /**
   * A live air route of positive cost c from s to t makes t reachable at a cost
   * of at most c, whatever the ground between them costs.
   */
  lemma AirRouteBoundsAnswer(g: Grid, s: Pos, t: Pos, k: int, r: int)
    requires InGrid(g, s) && InGrid(g, t)
    requires 0 <= k < g[s.y][s.x].numAirRoutes && k < |g[s.y][s.x].airRoutes|
    requires GoesTo(g[s.y][s.x].airRoutes[k], t.x, t.y) && g[s.y][s.x].airRoutes[k].cost > 0
    requires IsAnswer(g, s, t, r)
    ensures 0 <= r <= g[s.y][s.x].airRoutes[k].cost
  {
    var w := g[s.y][s.x].airRoutes[k].cost;
    assert AirEdge(g, s, t, w);
    WalkExtend(g, s, [], t, w);
    assert [] + [Hop(t, w)] == [Hop(t, w)];
    assert Reachable(g, s, t);
    AnswerMeaning(g, s, t, r);
  }

  /**
   * The terrain init_map builds: every row as long as the first, every cell
   * of cost 1 and without live air routes.
   */
  ghost predicate Uniform(g: Grid) {
    && (forall y | 0 <= y < |g| :: |g[y]| == |g[0]|)
    && forall y, x | 0 <= y < |g| && 0 <= x < |g[y]| :: g[y][x].cost == 1 && g[y][x].numAirRoutes == 0
  }

  /** On uniform terrain an edge is a single hex step of weight 1. */
  lemma UniformEdge(g: Grid, u: Pos, v: Pos, w: int)
    requires Uniform(g) && Edge(g, u, v, w)
    ensures w == 1 && HexDist(u.x, u.y, v.x, v.y) == 1
  {
    var h := g[u.y][u.x];
    assert h.cost == 1 && h.numAirRoutes == 0;
    assert !AirEdge(g, u, v, w);
    assert GroundEdge(g, u, v, w);
    var i :| 0 <= i < 6 && Neighbour(u, i) == v;
    NeighbourIsAdjacent(u, i, v);
  }

  lemma NeighbourIsAdjacent(u: Pos, i: int, v: Pos)
    requires 0 <= i < 6 && v == Neighbour(u, i)
    ensures HexDist(u.x, u.y, v.x, v.y) == 1
  {
    NeighbourAtDistanceOne(u.x, u.y, i, v.x, v.y);
  }

  /** On uniform terrain no walk weighs less than the hex distance it covers. */
  lemma {:induction false} UniformWalkBound(g: Grid, s: Pos, p: seq<Hop>)
    requires Uniform(g) && IsWalk(g, s, p)
    ensures Weight(p) >= HexDist(s.x, s.y, End(s, p).x, End(s, p).y)
    decreases |p|
  {
    if p == [] {
      HexDistZeroIff(s.x, s.y, s.x, s.y);
    } else {
      var q := p[..|p| - 1];
      var u, v, w := End(s, q), p[|p| - 1].to, p[|p| - 1].weight;
      UniformWalkBound(g, s, q);
      UniformEdge(g, u, v, w);
      HexDistTriangle(s.x, s.y, u.x, u.y, v.x, v.y);
      assert End(s, p) == v && Weight(p) == Weight(q) + w;
    }
  }

  /** On uniform terrain every cell is reached at exactly its hex distance. */
  lemma {:induction false} UniformAchievable(g: Grid, s: Pos, t: Pos)
    requires Uniform(g) && InGrid(g, s) && InGrid(g, t)
    ensures Achievable(g, s, t, HexDist(s.x, s.y, t.x, t.y))
    decreases HexDist(s.x, s.y, t.x, t.y)
  {
    if s == t {
      HexDistZeroIff(s.x, s.y, s.x, s.y);
      assert IsWalk(g, s, []) && End(s, []) == s && Weight([]) == 0;
    } else {
      var i, x2, y2 := StepTowards(s.x, s.y, t.x, t.y);
      var u := Pos(x2, y2);
      assert |g[y2]| == |g[s.y]| == |g[t.y]|;
      UniformAchievable(g, s, u);
      var j := DistanceOneIsNeighbour(x2, y2, t.x, t.y);
      assert Neighbour(u, j) == t;
      assert GroundEdge(g, u, t, 1);
      AchievableExtend(g, s, u, HexDist(s.x, s.y, x2, y2), t, 1);
    }
  }

  /** On uniform terrain the answer to a query between two cells is their hex distance. */
  lemma UniformAnswer(g: Grid, s: Pos, t: Pos, r: int)
    requires Uniform(g) && InGrid(g, s) && InGrid(g, t) && IsAnswer(g, s, t, r)
    ensures Reachable(g, s, t) && r == HexDist(s.x, s.y, t.x, t.y)
  {
    UniformAchievable(g, s, t);
    var p :| IsWalk(g, s, p) && End(s, p) == t && Weight(p) == HexDist(s.x, s.y, t.x, t.y);
    assert Reachable(g, s, t);
    var p' :| IsWalk(g, s, p') && End(s, p') == t && Weight(p') == r;
    UniformWalkBound(g, s, p');
  }
}
