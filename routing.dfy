/**
 * The search inside travel_cost: Dijkstra's algorithm with lazy deletion over
 * the composite graph of Paths, keeping tentative costs in a rows x cols
 * array (-1 for "none yet") and the frontier in a MinHeap.PriorityQueue.
 *
 * The proof works on values: `dist` maps each cell with a tentative cost to
 * that cost (the array mirrors it), `q` is the queue's multiset, and `settled`
 * holds the cells that have been expanded at their final cost.
 */
module Routing {
  import opened Geometry
  import opened Hexagons
  import opened Paths
  import opened MinHeap

  /** The cell a queued node names. */
  function At(n: Node): Pos {
    Pos(n.x, n.y)
  }

  ghost function AllCells(g: Grid): set<Pos> {
    set y: int, x: int | 0 <= y < |g| && 0 <= x < |g[y]| :: Pos(x, y)
  }

  /** Every cell of g keeps its air-route count within its slots. */
  ghost predicate AllWellFormed(g: Grid) {
    forall y, x | 0 <= y < |g| && 0 <= x < |g[y]| :: WellFormed(g[y][x])
  }

  // ---------------------------------------------------------------- invariant

  /** Every tentative cost is the weight of some walk from s; the start costs 0. */
  ghost predicate Known(g: Grid, s: Pos, dist: map<Pos, int>) {
    && s in dist && dist[s] == 0
    && forall v | v in dist :: InGrid(g, v) && dist[v] >= 0 && Achievable(g, s, v, dist[v])
  }

  /** Every queued node names a cell whose tentative cost is no dearer than the node. */
  ghost predicate QueueSound(dist: map<Pos, int>, q: multiset<Node>) {
    forall n | n in q :: At(n) in dist && dist[At(n)] <= n.cost
  }

  /** Every cell with a tentative cost, except those in `done`, is queued at exactly that cost. */
  ghost predicate QueueComplete(dist: map<Pos, int>, q: multiset<Node>, done: set<Pos>) {
    forall v | v in dist && v !in done :: Node(dist[v], v.x, v.y) in q
  }

  /** The edge u -> v of weight w imposes no cheaper cost on v than the one it has. */
  ghost predicate Relaxed(dist: map<Pos, int>, u: Pos, v: Pos, w: int) {
    u in dist && v in dist && dist[v] <= dist[u] + w
  }

  /**
   * Settled cells have their final cost (no walk to them is cheaper), the
   * target is never settled, and every edge out of a settled cell is relaxed.
   */
  ghost predicate SettledOk(g: Grid, s: Pos, t: Pos, dist: map<Pos, int>, settled: set<Pos>) {
    && t !in settled
    && forall u | u in settled ::
         && u in dist && InGrid(g, u) && Optimal(g, s, u, dist[u])
         && GroundDone(g, dist, u) && AirDone(g, dist, u)
  }

  /**
   * The loop invariant of the search; `pending` is the cell being expanded,
   * whose queue entry has just been popped (empty between expansions).
   */
  ghost predicate Inv(g: Grid, s: Pos, t: Pos, dist: map<Pos, int>, q: multiset<Node>,
                      settled: set<Pos>, pending: set<Pos>) {
    && Known(g, s, dist) && QueueSound(dist, q)
    && QueueComplete(dist, q, settled + pending) && SettledOk(g, s, t, dist, settled)
  }

  /** The invariant while the edges of u, popped at its final cost, are relaxed. */
  ghost predicate Expanding(g: Grid, s: Pos, t: Pos, dist: map<Pos, int>, q: multiset<Node>,
                            settled: set<Pos>, u: Pos) {
    Inv(g, s, t, dist, q, settled, {u}) && u in dist && Optimal(g, s, u, dist[u]) && u != t
  }

  /** dist' only adds cells or lowers costs, and keeps the cost of u. */
  ghost predicate Lowered(dist: map<Pos, int>, dist': map<Pos, int>, u: Pos) {
    && dist.Keys <= dist'.Keys
    && (forall v | v in dist :: dist'[v] <= dist[v])
    && u in dist && dist'[u] == dist[u]
  }

  /** Every ground edge out of u is relaxed. */
  ghost predicate GroundDone(g: Grid, dist: map<Pos, int>, u: Pos)
    requires InGrid(g, u)
  {
    g[u.y][u.x].cost > 0 ==>
      forall i | 0 <= i < 6 && InGrid(g, Neighbour(u, i)) :: Relaxed(dist, u, Neighbour(u, i), g[u.y][u.x].cost)
  }

  /** Every air edge out of u is relaxed. */
  ghost predicate AirDone(g: Grid, dist: map<Pos, int>, u: Pos)
    requires InGrid(g, u)
  {
    var h := g[u.y][u.x];
    forall k | 0 <= k < h.numAirRoutes && k < |h.airRoutes| && h.airRoutes[k].cost > 0
                && InGrid(g, Pos(h.airRoutes[k].destX, h.airRoutes[k].destY)) ::
      Relaxed(dist, u, Pos(h.airRoutes[k].destX, h.airRoutes[k].destY), h.airRoutes[k].cost)
  }

  // ---------------------------------------------------------------- steps

  /** The state after the start has been given cost 0 and queued. */
  lemma InitOk(g: Grid, s: Pos, t: Pos)
    requires InGrid(g, s)
    ensures Inv(g, s, t, map[s := 0], multiset{Node(0, s.x, s.y)}, {}, {})
  {
    assert IsWalk(g, s, []) && End(s, []) == s && Weight([]) == 0;
  }

  /**
   * The central fact: with every queued node costing at least m, no walk from
   * s to a cell that is not settled weighs less than m.
   */
  lemma {:induction false} WalkBound(g: Grid, s: Pos, t: Pos, dist: map<Pos, int>, q: multiset<Node>,
                                     settled: set<Pos>, m: int, p: seq<Hop>)
    requires Inv(g, s, t, dist, q, settled, {})
    requires forall n | n in q :: m <= n.cost
    requires IsWalk(g, s, p) && End(s, p) !in settled
    ensures Weight(p) >= m
    decreases |p|
  {
    if p == [] {
      assert Node(dist[s], s.x, s.y) in q;
    } else {
      var p' := p[..|p| - 1];
      var u, z, w := End(s, p'), p[|p| - 1].to, p[|p| - 1].weight;
      EdgeWeightPositive(g, u, z, w);
      if u in settled {
        DoneEdge(g, dist, u, z, w);
        assert Node(dist[z], z.x, z.y) in q;
        assert Weight(p') >= dist[u];
      } else {
        WalkBound(g, s, t, dist, q, settled, m, p');
      }
    }
  }

  /** A cheapest queued node that is not settled carries the least walk weight to its cell. */
  lemma CheapestIsOptimal(g: Grid, s: Pos, t: Pos, dist: map<Pos, int>, q: multiset<Node>,
                          settled: set<Pos>, n: Node)
    requires Inv(g, s, t, dist, q, settled, {}) && n in q && forall m | m in q :: n.cost <= m.cost
    requires At(n) !in settled
    ensures Optimal(g, s, At(n), n.cost)
  {
    forall p | IsWalk(g, s, p) && End(s, p) == At(n) ensures Weight(p) >= n.cost {
      WalkBound(g, s, t, dist, q, settled, n.cost, p);
    }
  }

  /** A popped node that is dearer than its cell's tentative cost is stale: dropping it keeps the invariant. */
  lemma DropStale(g: Grid, s: Pos, t: Pos, dist: map<Pos, int>, q: multiset<Node>,
                  settled: set<Pos>, n: Node)
    requires Inv(g, s, t, dist, q, settled, {}) && n in q
    requires At(n) in dist && n.cost > dist[At(n)]
    ensures Inv(g, s, t, dist, q - multiset{n}, settled, {})
  {
    forall v | v in dist && v !in settled ensures Node(dist[v], v.x, v.y) in q - multiset{n} {
      assert Node(dist[v], v.x, v.y) != n;
    }
  }

  /** Popping the target at its tentative cost answers the query. */
  lemma TargetAnswered(g: Grid, s: Pos, t: Pos, dist: map<Pos, int>, q: multiset<Node>,
                       settled: set<Pos>, n: Node)
    requires Inv(g, s, t, dist, q, settled, {}) && n in q && forall m | m in q :: n.cost <= m.cost
    requires At(n) == t && n.cost <= dist[t]
    ensures IsAnswer(g, s, t, n.cost)
  {
    CheapestIsOptimal(g, s, t, dist, q, settled, n);
    assert Achievable(g, s, t, n.cost);
  }

  /** Popping a cheapest node at its tentative cost starts its expansion at its final cost. */
  lemma StartExpanding(g: Grid, s: Pos, t: Pos, dist: map<Pos, int>, q: multiset<Node>,
                       settled: set<Pos>, n: Node)
    requires Inv(g, s, t, dist, q, settled, {}) && n in q && forall m | m in q :: n.cost <= m.cost
    requires At(n) in dist && n.cost <= dist[At(n)] && At(n) != t
    ensures n.cost == dist[At(n)]
    ensures Expanding(g, s, t, dist, q - multiset{n}, settled, At(n))
  {
    var u := At(n);
    if u !in settled {
      CheapestIsOptimal(g, s, t, dist, q, settled, n);
    }
    forall v | v in dist && v !in settled + {u} ensures Node(dist[v], v.x, v.y) in q - multiset{n} {
      assert Node(dist[v], v.x, v.y) != n;
    }
  }

  /** A cell given cost c = dist[u] + w over an edge out of u is reachable at that cost. */
  lemma RelaxKnown(g: Grid, s: Pos, dist: map<Pos, int>, u: Pos, v: Pos, w: int, c: int)
    requires Known(g, s, dist) && u in dist && Edge(g, u, v, w) && c == dist[u] + w
    requires v !in dist || c < dist[v]
    ensures Known(g, s, dist[v := c])
  {
    EdgeWeightPositive(g, u, v, w);
    AchievableExtend(g, s, u, dist[u], v, w);
  }

  /** Queueing v at its new cost keeps the queue sound and complete. */
  lemma RelaxQueue(dist: map<Pos, int>, q: multiset<Node>, done: set<Pos>, v: Pos, c: int)
    requires QueueSound(dist, q) && QueueComplete(dist, q, done)
    requires v !in dist || c < dist[v]
    ensures QueueSound(dist[v := c], q + multiset{Node(c, v.x, v.y)})
    ensures QueueComplete(dist[v := c], q + multiset{Node(c, v.x, v.y)}, done)
  {
  }

  /** A settled cell is never offered a cheaper cost, so settling survives the relaxation. */
  lemma RelaxSettled(g: Grid, s: Pos, t: Pos, dist: map<Pos, int>, settled: set<Pos>,
                     u: Pos, v: Pos, w: int, c: int)
    requires SettledOk(g, s, t, dist, settled) && Known(g, s, dist) && u in dist
    requires Edge(g, u, v, w) && c == dist[u] + w
    requires v !in dist || c < dist[v]
    ensures v !in settled
    ensures SettledOk(g, s, t, dist[v := c], settled)
  {
    AchievableExtend(g, s, u, dist[u], v, w);
    var dist' := dist[v := c];
    forall x | x in settled ensures GroundDone(g, dist', x) && AirDone(g, dist', x) {
      LoweredKeepsDone(g, dist, dist', x);
    }
  }

  /**
   * Relaxing an edge u -> v of weight w that offers v the cheaper cost
   * c = dist[u] + w: v gets cost c and is queued at it. Such a v is neither u
   * nor settled.
   */
  lemma RelaxStep(g: Grid, s: Pos, t: Pos, dist: map<Pos, int>, q: multiset<Node>,
                  settled: set<Pos>, u: Pos, v: Pos, w: int, c: int)
    requires Expanding(g, s, t, dist, q, settled, u) && Edge(g, u, v, w) && c == dist[u] + w
    requires v !in dist || c < dist[v]
    ensures v != u && v !in settled
    ensures Expanding(g, s, t, dist[v := c], q + multiset{Node(c, v.x, v.y)}, settled, u)
    ensures Lowered(dist, dist[v := c], u) && Relaxed(dist[v := c], u, v, w)
  {
    EdgeWeightPositive(g, u, v, w);
    RelaxKnown(g, s, dist, u, v, w, c);
    RelaxQueue(dist, q, settled + {u}, v, c);
    RelaxSettled(g, s, t, dist, settled, u, v, w, c);
  }

  /** Lowering costs keeps every edge that was relaxed relaxed. */
  lemma LoweredKeepsDone(g: Grid, dist: map<Pos, int>, dist': map<Pos, int>, u: Pos)
    requires InGrid(g, u) && Lowered(dist, dist', u)
    ensures GroundDone(g, dist, u) ==> GroundDone(g, dist', u)
    ensures AirDone(g, dist, u) ==> AirDone(g, dist', u)
  {
  }

  /** Lowering is transitive. */
  lemma LoweredTrans(d1: map<Pos, int>, d2: map<Pos, int>, d3: map<Pos, int>, u: Pos)
    requires Lowered(d1, d2, u) && Lowered(d2, d3, u)
    ensures Lowered(d1, d3, u)
  {
  }

  /** The first i neighbour directions of u are relaxed. */
  ghost predicate GroundUpTo(g: Grid, dist: map<Pos, int>, u: Pos, i: int)
    requires InGrid(g, u)
  {
    forall j | 0 <= j < i && j < 6 && InGrid(g, Neighbour(u, j)) :: Relaxed(dist, u, Neighbour(u, j), g[u.y][u.x].cost)
  }

  /** The first i air-route slots of u are relaxed. */
  ghost predicate AirUpTo(g: Grid, dist: map<Pos, int>, u: Pos, i: int)
    requires InGrid(g, u)
  {
    var h := g[u.y][u.x];
    forall k | 0 <= k < i && k < h.numAirRoutes && k < |h.airRoutes| && h.airRoutes[k].cost > 0
                && InGrid(g, Pos(h.airRoutes[k].destX, h.airRoutes[k].destY)) ::
      Relaxed(dist, u, Pos(h.airRoutes[k].destX, h.airRoutes[k].destY), h.airRoutes[k].cost)
  }

  lemma GroundUpToLowered(g: Grid, d1: map<Pos, int>, d2: map<Pos, int>, u: Pos, i: int)
    requires InGrid(g, u) && GroundUpTo(g, d1, u, i) && Lowered(d1, d2, u)
    ensures GroundUpTo(g, d2, u, i)
  {
  }

  lemma AirUpToLowered(g: Grid, d1: map<Pos, int>, d2: map<Pos, int>, u: Pos, i: int)
    requires InGrid(g, u) && AirUpTo(g, d1, u, i) && Lowered(d1, d2, u)
    ensures AirUpTo(g, d2, u, i)
  {
  }

  lemma GroundUpToNext(g: Grid, dist: map<Pos, int>, u: Pos, i: int)
    requires InGrid(g, u) && 0 <= i < 6 && GroundUpTo(g, dist, u, i)
    requires InGrid(g, Neighbour(u, i)) ==> Relaxed(dist, u, Neighbour(u, i), g[u.y][u.x].cost)
    ensures GroundUpTo(g, dist, u, i + 1)
  {
  }

  lemma AirUpToNext(g: Grid, dist: map<Pos, int>, u: Pos, i: int)
    requires InGrid(g, u) && 0 <= i < |g[u.y][u.x].airRoutes| && AirUpTo(g, dist, u, i)
    requires var r := g[u.y][u.x].airRoutes[i];
             i < g[u.y][u.x].numAirRoutes && r.cost > 0 && InGrid(g, Pos(r.destX, r.destY)) ==>
               Relaxed(dist, u, Pos(r.destX, r.destY), r.cost)
    ensures AirUpTo(g, dist, u, i + 1)
  {
  }

  lemma GroundUpToDone(g: Grid, dist: map<Pos, int>, u: Pos)
    requires InGrid(g, u) && GroundUpTo(g, dist, u, 6)
    ensures GroundDone(g, dist, u)
  {
  }

  lemma AirUpToDone(g: Grid, dist: map<Pos, int>, u: Pos)
    requires InGrid(g, u) && AirUpTo(g, dist, u, g[u.y][u.x].numAirRoutes)
    ensures AirDone(g, dist, u)
  {
  }

  /** A positive-cost cell has a ground edge to each in-grid neighbour. */
  lemma NeighbourEdge(g: Grid, u: Pos, i: int)
    requires InGrid(g, u) && 0 <= i < 6 && InGrid(g, Neighbour(u, i)) && g[u.y][u.x].cost > 0
    ensures Edge(g, u, Neighbour(u, i), g[u.y][u.x].cost)
  {
  }

  /** A live route of positive cost into the grid is an air edge. */
  lemma RouteEdge(g: Grid, u: Pos, k: int)
    requires InGrid(g, u) && 0 <= k < g[u.y][u.x].numAirRoutes && k < |g[u.y][u.x].airRoutes|
    requires var r := g[u.y][u.x].airRoutes[k]; r.cost > 0 && InGrid(g, Pos(r.destX, r.destY))
    ensures var r := g[u.y][u.x].airRoutes[k]; Edge(g, u, Pos(r.destX, r.destY), r.cost)
  {
    var r := g[u.y][u.x].airRoutes[k];
    assert GoesTo(r, r.destX, r.destY);
  }

  /** The ground and air loops together relax every edge out of u. */
  lemma DoneEdge(g: Grid, dist: map<Pos, int>, u: Pos, v: Pos, w: int)
    requires InGrid(g, u) && GroundDone(g, dist, u) && AirDone(g, dist, u) && Edge(g, u, v, w)
    ensures Relaxed(dist, u, v, w)
  {
    if GroundEdge(g, u, v, w) {
      var i :| 0 <= i < 6 && Neighbour(u, i) == v;
    } else {
      var h := g[u.y][u.x];
      var k :| 0 <= k < h.numAirRoutes && k < |h.airRoutes| &&
               h.airRoutes[k].cost > 0 && GoesTo(h.airRoutes[k], v.x, v.y) && w == h.airRoutes[k].cost;
      assert v == Pos(h.airRoutes[k].destX, h.airRoutes[k].destY);
    }
  }

  /** Once every edge out of u is relaxed, u is settled. */
  lemma FinishExpanding(g: Grid, s: Pos, t: Pos, dist: map<Pos, int>, q: multiset<Node>,
                        settled: set<Pos>, u: Pos)
    requires Expanding(g, s, t, dist, q, settled, u)
    requires GroundDone(g, dist, u) && AirDone(g, dist, u)
    ensures Inv(g, s, t, dist, q, settled + {u}, {})
  {
    assert settled + {u} + {} == settled + {u};
  }

  /** Every cell a walk from s reaches is settled once the queue runs dry. */
  lemma {:induction false} DrainedWalk(g: Grid, s: Pos, t: Pos, dist: map<Pos, int>,
                                       settled: set<Pos>, p: seq<Hop>)
    requires Inv(g, s, t, dist, multiset{}, settled, {}) && IsWalk(g, s, p)
    ensures End(s, p) in settled
    decreases |p|
  {
    if p == [] {
      assert !(Node(dist[s], s.x, s.y) in multiset{});
    } else {
      var p' := p[..|p| - 1];
      DrainedWalk(g, s, t, dist, settled, p');
      var z := p[|p| - 1].to;
      DoneEdge(g, dist, End(s, p'), z, p[|p| - 1].weight);
      assert !(Node(dist[z], z.x, z.y) in multiset{});
    }
  }

  /** An empty queue means the target is unreachable. */
  lemma DrainedUnreachable(g: Grid, s: Pos, t: Pos, dist: map<Pos, int>, settled: set<Pos>)
    requires Inv(g, s, t, dist, multiset{}, settled, {})
    ensures IsAnswer(g, s, t, -1)
  {
    if Reachable(g, s, t) {
      var p :| IsWalk(g, s, p) && End(s, p) == t;
      DrainedWalk(g, s, t, dist, settled, p);
    }
  }

  /** Settling a new cell of the grid shrinks the unsettled part. */
  lemma SettleShrinks(all: set<Pos>, settled: set<Pos>, u: Pos)
    requires u in all && u !in settled
    ensures |all - (settled + {u})| < |all - settled|
  {
    assert all - settled == (all - (settled + {u})) + {u};
  }

  // ---------------------------------------------------------------- the search

  /** The array has the grid's rows x cols shape. */
  ghost predicate Shaped(g: Grid, minCosts: array2<int>) {
    |g| == minCosts.Length0 && forall y | 0 <= y < |g| :: |g[y]| == minCosts.Length1
  }

  /** The tentative-cost array agrees with dist: a cell's entry is its cost, or -1 without one. */
  ghost predicate Mirrors(minCosts: array2<int>, dist: map<Pos, int>)
    reads minCosts
  {
    && (forall v | v in dist :: 0 <= v.y < minCosts.Length0 && 0 <= v.x < minCosts.Length1)
    && forall y, x | 0 <= y < minCosts.Length0 && 0 <= x < minCosts.Length1 ::
         minCosts[y, x] == if Pos(x, y) in dist then dist[Pos(x, y)] else -1
  }

  /**
   * One relaxation, as both loops of the search write it: the edge u -> v
   * offers newCost = cost(u) + w, which replaces v's entry and is queued when v
   * has none yet or a dearer one.
   */
  method Relax(minCosts: array2<int>, pq: PriorityQueue, v: Pos, newCost: int,
               ghost g: Grid, ghost s: Pos, ghost t: Pos, ghost settled: set<Pos>, ghost u: Pos,
               ghost w: int, ghost dist: map<Pos, int>)
    returns (ghost dist': map<Pos, int>)
    requires pq.Valid() && Shaped(g, minCosts) && Mirrors(minCosts, dist)
    requires Expanding(g, s, t, dist, pq.Contents(), settled, u)
    requires Edge(g, u, v, w) && newCost == dist[u] + w
    modifies minCosts, pq, pq.nodes
    ensures pq.Valid() && (pq.nodes == old(pq.nodes) || fresh(pq.nodes))
    ensures Mirrors(minCosts, dist') && Expanding(g, s, t, dist', pq.Contents(), settled, u)
    ensures Lowered(dist, dist', u) && Relaxed(dist', u, v, w)
    ensures u in settled ==> pq.size == old(pq.size)
  {
    dist' := dist;
    ghost var q := pq.Contents();
    if u in settled {
      DoneEdge(g, dist, u, v, w);
    }
    if minCosts[v.y, v.x] == -1 || newCost < minCosts[v.y, v.x] {
      RelaxStep(g, s, t, dist, q, settled, u, v, w, newCost);
      Improve(minCosts, pq, v, newCost, dist);
      dist' := dist[v := newCost];
    }
  }

  /** The improving branch of a relaxation: records cost c for cell v and queues v at c. */
  method Improve(minCosts: array2<int>, pq: PriorityQueue, v: Pos, c: int, ghost dist: map<Pos, int>)
    requires pq.Valid() && Mirrors(minCosts, dist)
    requires 0 <= v.y < minCosts.Length0 && 0 <= v.x < minCosts.Length1
    modifies minCosts, pq, pq.nodes
    ensures pq.Valid() && (pq.nodes == old(pq.nodes) || fresh(pq.nodes))
    ensures pq.Contents() == old(pq.Contents()) + multiset{Node(c, v.x, v.y)}
    ensures Mirrors(minCosts, dist[v := c])
  {
    minCosts[v.y, v.x] := c;
    pq.Push(c, v.x, v.y);
  }

  /** One pass of the ground loop: neighbour i of u, when in the grid, is offered cost(u) + u's cost. */
  method OfferNeighbour(minCosts: array2<int>, pq: PriorityQueue, h: Hexagon, x: int, y: int, cost: int, i: int,
                        ghost g: Grid, ghost s: Pos, ghost t: Pos, ghost settled: set<Pos>,
                        ghost dist0: map<Pos, int>, ghost dist: map<Pos, int>)
    returns (ghost dist': map<Pos, int>)
    requires InGrid(g, Pos(x, y)) && h == g[y][x] && h.cost > 0 && 0 <= i < 6
    requires pq.Valid() && Shaped(g, minCosts) && Mirrors(minCosts, dist)
    requires Expanding(g, s, t, dist, pq.Contents(), settled, Pos(x, y))
    requires Lowered(dist0, dist, Pos(x, y)) && GroundUpTo(g, dist, Pos(x, y), i) && cost == dist0[Pos(x, y)]
    modifies minCosts, pq, pq.nodes
    ensures pq.Valid() && (pq.nodes == old(pq.nodes) || fresh(pq.nodes))
    ensures Mirrors(minCosts, dist') && Expanding(g, s, t, dist', pq.Contents(), settled, Pos(x, y))
    ensures Lowered(dist0, dist', Pos(x, y)) && GroundUpTo(g, dist', Pos(x, y), i + 1)
    ensures Pos(x, y) in settled ==> pq.size == old(pq.size)
  {
    ghost var u := Pos(x, y);
    dist' := dist;
    var next := Neighbour(Pos(x, y), i);
    if IsValid(minCosts.Length0, minCosts.Length1, next.y, next.x) {
      NeighbourEdge(g, u, i);
      dist' := Relax(minCosts, pq, next, cost + h.cost, g, s, t, settled, u, h.cost, dist);
      LoweredTrans(dist0, dist, dist', u);
      GroundUpToLowered(g, dist, dist', u, i);
    }
    GroundUpToNext(g, dist', u, i);
  }

  /** One pass of the air loop: the destination of live route i of positive cost, when in the grid, is offered cost(u) + the route's cost. */
  method OfferRoute(minCosts: array2<int>, pq: PriorityQueue, h: Hexagon, x: int, y: int, cost: int, i: int,
                    ghost g: Grid, ghost s: Pos, ghost t: Pos, ghost settled: set<Pos>,
                    ghost dist0: map<Pos, int>, ghost dist: map<Pos, int>)
    returns (ghost dist': map<Pos, int>)
    requires InGrid(g, Pos(x, y)) && h == g[y][x] && WellFormed(h) && 0 <= i < h.numAirRoutes
    requires pq.Valid() && Shaped(g, minCosts) && Mirrors(minCosts, dist)
    requires Expanding(g, s, t, dist, pq.Contents(), settled, Pos(x, y))
    requires Lowered(dist0, dist, Pos(x, y)) && AirUpTo(g, dist, Pos(x, y), i) && cost == dist0[Pos(x, y)]
    modifies minCosts, pq, pq.nodes
    ensures pq.Valid() && (pq.nodes == old(pq.nodes) || fresh(pq.nodes))
    ensures Mirrors(minCosts, dist') && Expanding(g, s, t, dist', pq.Contents(), settled, Pos(x, y))
    ensures Lowered(dist0, dist', Pos(x, y)) && AirUpTo(g, dist', Pos(x, y), i + 1)
    ensures Pos(x, y) in settled ==> pq.size == old(pq.size)
  {
    ghost var u := Pos(x, y);
    dist' := dist;
    var route := h.airRoutes[i];
    if route.cost > 0 {
      if IsValid(minCosts.Length0, minCosts.Length1, route.destY, route.destX) {
        RouteEdge(g, u, i);
        dist' := Relax(minCosts, pq, Pos(route.destX, route.destY), cost + route.cost, g, s, t, settled, u, route.cost, dist);
        LoweredTrans(dist0, dist, dist', u);
        AirUpToLowered(g, dist, dist', u, i);
      }
    }
    AirUpToNext(g, dist', u, i);
  }

  /** The ground loop of the search: u, of positive cost, offers each in-grid neighbour cost(u) + its own cost. */
  method RelaxGround(minCosts: array2<int>, pq: PriorityQueue, h: Hexagon, x: int, y: int, cost: int,
                     ghost g: Grid, ghost s: Pos, ghost t: Pos, ghost settled: set<Pos>, ghost dist: map<Pos, int>)
    returns (ghost dist': map<Pos, int>)
    requires InGrid(g, Pos(x, y)) && h == g[y][x] && h.cost > 0
    requires pq.Valid() && Shaped(g, minCosts) && Mirrors(minCosts, dist)
    requires Expanding(g, s, t, dist, pq.Contents(), settled, Pos(x, y)) && cost == dist[Pos(x, y)]
    modifies minCosts, pq, pq.nodes
    ensures pq.Valid() && (pq.nodes == old(pq.nodes) || fresh(pq.nodes))
    ensures Mirrors(minCosts, dist') && Expanding(g, s, t, dist', pq.Contents(), settled, Pos(x, y))
    ensures Lowered(dist, dist', Pos(x, y)) && GroundDone(g, dist', Pos(x, y))
    ensures Pos(x, y) in settled ==> pq.size == old(pq.size)
  {
    dist' := dist;
    for i := 0 to 6
      invariant pq.Valid() && (pq.nodes == old(pq.nodes) || fresh(pq.nodes))
      invariant Mirrors(minCosts, dist') && Expanding(g, s, t, dist', pq.Contents(), settled, Pos(x, y))
      invariant Lowered(dist, dist', Pos(x, y)) && GroundUpTo(g, dist', Pos(x, y), i)
      invariant Pos(x, y) in settled ==> pq.size == old(pq.size)
    {
      dist' := OfferNeighbour(minCosts, pq, h, x, y, cost, i, g, s, t, settled, dist, dist');
    }
    GroundUpToDone(g, dist', Pos(x, y));
  }

  /** The air loop of the search: each live route of positive cost into the grid offers its destination cost(u) + the route's cost. */
  method RelaxAir(minCosts: array2<int>, pq: PriorityQueue, h: Hexagon, x: int, y: int, cost: int,
                  ghost g: Grid, ghost s: Pos, ghost t: Pos, ghost settled: set<Pos>, ghost dist: map<Pos, int>)
    returns (ghost dist': map<Pos, int>)
    requires InGrid(g, Pos(x, y)) && h == g[y][x] && WellFormed(h)
    requires pq.Valid() && Shaped(g, minCosts) && Mirrors(minCosts, dist)
    requires Expanding(g, s, t, dist, pq.Contents(), settled, Pos(x, y)) && cost == dist[Pos(x, y)]
    modifies minCosts, pq, pq.nodes
    ensures pq.Valid() && (pq.nodes == old(pq.nodes) || fresh(pq.nodes))
    ensures Mirrors(minCosts, dist') && Expanding(g, s, t, dist', pq.Contents(), settled, Pos(x, y))
    ensures Lowered(dist, dist', Pos(x, y)) && AirDone(g, dist', Pos(x, y))
    ensures Pos(x, y) in settled ==> pq.size == old(pq.size)
  {
    dist' := dist;
    for i := 0 to h.numAirRoutes
      invariant pq.Valid() && (pq.nodes == old(pq.nodes) || fresh(pq.nodes))
      invariant Mirrors(minCosts, dist') && Expanding(g, s, t, dist', pq.Contents(), settled, Pos(x, y))
      invariant Lowered(dist, dist', Pos(x, y)) && AirUpTo(g, dist', Pos(x, y), i)
      invariant Pos(x, y) in settled ==> pq.size == old(pq.size)
    {
      dist' := OfferRoute(minCosts, pq, h, x, y, cost, i, g, s, t, settled, dist, dist');
    }
    AirUpToDone(g, dist', Pos(x, y));
  }

  lemma InAllCells(g: Grid, p: Pos)
    requires InGrid(g, p)
    ensures p in AllCells(g)
  {
    var y, x := p.y, p.x;
    assert Pos(x, y) == p;
  }

  /** pq_pop on a non-empty queue during the search; the cost table is untouched. */
  method PopCheapest(pq: PriorityQueue, ghost minCosts: array2<int>, ghost dist: map<Pos, int>) returns (n: Node)
    requires pq.Valid() && pq.Contents() != multiset{} && Mirrors(minCosts, dist)
    modifies pq, pq.nodes
    ensures pq.Valid() && pq.nodes == old(pq.nodes) && pq.size == old(pq.size) - 1
    ensures n in old(pq.Contents()) && pq.Contents() == old(pq.Contents()) - multiset{n}
    ensures forall m | m in old(pq.Contents()) :: n.cost <= m.cost
    ensures Mirrors(minCosts, dist)
  {
    n := pq.Pop();
  }

  lemma SettleAgain(settled: set<Pos>, u: Pos)
    requires u in settled
    ensures settled + {u} == settled
  {
  }

  /**
   * The expansion of u = (x, y), popped at its final cost: the ground loop when
   * u's cost is positive, then the air loop. Afterwards u is settled.
   */
  method Expand(minCosts: array2<int>, pq: PriorityQueue, h: Hexagon, x: int, y: int, cost: int,
                ghost g: Grid, ghost s: Pos, ghost t: Pos, ghost settled: set<Pos>, ghost dist: map<Pos, int>)
    returns (ghost dist': map<Pos, int>)
    requires InGrid(g, Pos(x, y)) && h == g[y][x] && WellFormed(h)
    requires pq.Valid() && Shaped(g, minCosts) && Mirrors(minCosts, dist)
    requires Expanding(g, s, t, dist, pq.Contents(), settled, Pos(x, y)) && cost == dist[Pos(x, y)]
    modifies minCosts, pq, pq.nodes
    ensures pq.Valid() && (pq.nodes == old(pq.nodes) || fresh(pq.nodes))
    ensures Mirrors(minCosts, dist') && Inv(g, s, t, dist', pq.Contents(), settled + {Pos(x, y)}, {})
    ensures Pos(x, y) in settled ==> pq.size == old(pq.size)
  {
    ghost var u := Pos(x, y);
    dist' := dist;
    if h.cost > 0 {
      dist' := RelaxGround(minCosts, pq, h, x, y, cost, g, s, t, settled, dist');
    }
    ghost var afterGround := dist';
    dist' := RelaxAir(minCosts, pq, h, x, y, cost, g, s, t, settled, dist');
    LoweredKeepsDone(g, afterGround, dist', u);
    FinishExpanding(g, s, t, dist', pq.Contents(), settled, u);
  }

  /**
   * The expanding branch of the search loop: `current` was popped at the cost
   * the table holds for its cell, which is not the target. Its cell is expanded
   * and then settled.
   */
  method Settle(g: Grid, minCosts: array2<int>, pq: PriorityQueue, current: Node,
                ghost s: Pos, ghost t: Pos, ghost settled: set<Pos>, ghost dist: map<Pos, int>, ghost q: multiset<Node>)
    returns (ghost settled': set<Pos>, ghost dist': map<Pos, int>)
    requires AllWellFormed(g) && settled <= AllCells(g)
    requires pq.Valid() && Shaped(g, minCosts) && Mirrors(minCosts, dist)
    requires Inv(g, s, t, dist, q, settled, {}) && current in q && forall m | m in q :: current.cost <= m.cost
    requires At(current) in dist && current.cost <= dist[At(current)] && At(current) != t
    requires pq.Contents() == q - multiset{current}
    modifies minCosts, pq, pq.nodes
    ensures pq.Valid() && (pq.nodes == old(pq.nodes) || fresh(pq.nodes))
    ensures Mirrors(minCosts, dist') && Inv(g, s, t, dist', pq.Contents(), settled', {}) && settled' <= AllCells(g)
    ensures |AllCells(g) - settled'| < |AllCells(g) - settled| || (settled' == settled && pq.size == old(pq.size))
  {
    var x, y := current.x, current.y;
    ghost var u := At(current);
    StartExpanding(g, s, t, dist, q, settled, current);
    dist' := Expand(minCosts, pq, g[y][x], x, y, current.cost, g, s, t, settled, dist);
    if u in settled {
      SettleAgain(settled, u);
      settled' := settled;
    } else {
      InAllCells(g, u);
      SettleShrinks(AllCells(g), settled, u);
      settled' := settled + {u};
    }
  }

  /**
   * One iteration of travel_cost's search loop: pop the cheapest node, drop it
   * when stale, stop when it is the target, and otherwise expand it. `stop`
   * says the loop breaks with `cost` as its answer.
   */
  method Visit(g: Grid, minCosts: array2<int>, pq: PriorityQueue, xd: int, yd: int,
               ghost s: Pos, ghost settled: set<Pos>, ghost dist: map<Pos, int>)
    returns (stop: bool, cost: int, ghost settled': set<Pos>, ghost dist': map<Pos, int>)
    requires AllWellFormed(g)
    requires pq.Valid() && pq.Contents() != multiset{} && Shaped(g, minCosts) && Mirrors(minCosts, dist)
    requires Inv(g, s, Pos(xd, yd), dist, pq.Contents(), settled, {}) && settled <= AllCells(g)
    modifies minCosts, pq, pq.nodes
    ensures pq.Valid() && (pq.nodes == old(pq.nodes) || fresh(pq.nodes))
    ensures stop ==> IsAnswer(g, s, Pos(xd, yd), cost)
    ensures !stop ==> && Mirrors(minCosts, dist') && Inv(g, s, Pos(xd, yd), dist', pq.Contents(), settled', {})
                      && settled' <= AllCells(g)
                      && (|AllCells(g) - settled'| < |AllCells(g) - settled| || (settled' == settled && pq.size < old(pq.size)))
  {
    ghost var t := Pos(xd, yd);
    ghost var q := pq.Contents();
    var current := PopCheapest(pq, minCosts, dist);
    var x, y := current.x, current.y;
    cost := current.cost;
    assert At(current) in dist && InGrid(g, At(current));
    if minCosts[y, x] != -1 && cost > minCosts[y, x] {
      DropStale(g, s, t, dist, q, settled, current);
      return false, cost, settled, dist;
    }
    if x == xd && y == yd {
      TargetAnswered(g, s, t, dist, q, settled, current);
      return true, cost, settled, dist;
    }
    settled', dist' := Settle(g, minCosts, pq, current, s, t, settled, dist, q);
    stop := false;
  }

  /** The search's starting state: every cell unvisited (-1) but the source at 0, and the source queued at 0. */
  method StartSearch(g: Grid, rows: int, cols: int, xp: int, yp: int) returns (minCosts: array2<int>, pq: PriorityQueue)
    requires |g| == rows && forall y | 0 <= y < rows :: |g[y]| == cols
    requires IsValid(rows, cols, yp, xp)
    ensures fresh(minCosts) && fresh(pq) && fresh(pq.nodes) && pq.Valid()
    ensures Shaped(g, minCosts) && Mirrors(minCosts, map[Pos(xp, yp) := 0])
    ensures pq.Contents() == multiset{Node(0, xp, yp)}
  {
    minCosts := new int[rows, cols]((_, _) => -1);
    minCosts[yp, xp] := 0;
    pq := new PriorityQueue();
    pq.Push(0, xp, yp);
  }

  /**
   * travel_cost's search from (xp, yp) to (xd, yd) over the rows x cols grid g:
   * Dijkstra with lazy deletion that stops when the target is popped. The
   * result is the least walk weight to the target, or -1 when no walk reaches it.
   */
  method ShortestPath(g: Grid, rows: int, cols: int, xp: int, yp: int, xd: int, yd: int) returns (finalCost: int)
    requires |g| == rows && (forall y | 0 <= y < rows :: |g[y]| == cols) && AllWellFormed(g)
    requires IsValid(rows, cols, yp, xp) && IsValid(rows, cols, yd, xd)
    ensures IsAnswer(g, Pos(xp, yp), Pos(xd, yd), finalCost)
  {
    ghost var s, t := Pos(xp, yp), Pos(xd, yd);
    var minCosts, pq := StartSearch(g, rows, cols, xp, yp);
    ghost var dist := map[s := 0];
    ghost var settled: set<Pos> := {};
    InitOk(g, s, t);
    finalCost := -1;
    while !pq.IsEmpty()
      invariant fresh(pq) && fresh(pq.nodes) && pq.Valid()
      invariant Shaped(g, minCosts) && Mirrors(minCosts, dist)
      invariant Inv(g, s, t, dist, pq.Contents(), settled, {}) && settled <= AllCells(g)
      decreases |AllCells(g) - settled|, pq.size
    {
      var stop, cost;
      stop, cost, settled, dist := Visit(g, minCosts, pq, xd, yd, s, settled, dist);
      if stop {
        return cost;
      }
    }
    DrainedUnreachable(g, s, t, dist, settled);
  }
}
