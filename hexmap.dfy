/**
 * The map object: the terrain grid with its dimensions and the result cache,
 * and the four public operations on them (init_map, change_cost,
 * toggle_air_route and travel_cost), together with is_valid.
 *
 * The terrain is held as a value, a sequence of rows that the editing
 * operations reassign. The class invariant ties every cached result to the
 * current terrain: each entry is the correct answer to its query, which is
 * why every edit empties the cache.
 */
module HexMaps {
  import opened Geometry
  import opened Hexagons
  import opened Paths
  import opened ResultCaches
  import Routing

  /** The strongest edit is +-10. */
  const MaxStrength := 10

  /** The cell at column j, row i after a radial edit of strength v around (x, y). */
  function EditedCell(h: Hexagon, x: int, y: int, v: int, radius: int, j: int, i: int): Hexagon
    requires WellFormed(h) && radius > 0
  {
    var dist := HexDist(x, y, j, i);
    if dist < radius then Falloff(h, CostChange(v, radius, dist)) else h
  }

  /** The edit moves the centre cell's cost by the full strength, clamped. */
  lemma EditedCentre(h: Hexagon, x: int, y: int, v: int, radius: int)
    requires WellFormed(h) && radius > 0
    ensures EditedCell(h, x, y, v, radius, x, y).cost == Clamp(h.cost + v)
  {
    HexDistZeroIff(x, y, x, y);
    CostChangeAtCentre(v, radius);
  }

  /** Cells at hex distance radius or more from the centre are untouched. */
  lemma EditedOutside(h: Hexagon, x: int, y: int, v: int, radius: int, j: int, i: int)
    requires WellFormed(h) && radius > 0 && HexDist(x, y, j, i) >= radius
    ensures EditedCell(h, x, y, v, radius, j, i) == h
  {
  }

  /**
   * For a non-negative strength, a cell nearer the centre never gains less cost
   * than one farther out, unless it has been capped at the cost ceiling.
   */
  lemma EditedFades(h1: Hexagon, h2: Hexagon, x: int, y: int, v: int, radius: int, j1: int, i1: int, j2: int, i2: int)
    requires WellFormed(h1) && WellFormed(h2) && MinCost <= h1.cost && MinCost <= h2.cost
    requires radius > 0 && 0 <= v
    requires HexDist(x, y, j1, i1) <= HexDist(x, y, j2, i2) < radius
    ensures || EditedCell(h1, x, y, v, radius, j1, i1).cost - h1.cost >= EditedCell(h2, x, y, v, radius, j2, i2).cost - h2.cost
            || EditedCell(h1, x, y, v, radius, j1, i1).cost == MaxCost
  {
    var d1, d2 := HexDist(x, y, j1, i1), HexDist(x, y, j2, i2);
    CostChangeFades(v, radius, d1, d2);
    CostChangeBounds(v, radius, d2);
  }

  /** g has rows rows of cols cells each. */
  ghost predicate HasShape(g: Grid, rows: int, cols: int) {
    rows >= 0 && cols >= 0 && |g| == rows && forall i | 0 <= i < rows :: |g[i]| == cols
  }

  /** The grid invariant: g has its dimensions and every cell keeps the per-cell invariant. */
  ghost predicate GridOk(g: Grid, rows: int, cols: int) {
    HasShape(g, rows, cols) && forall i, j | 0 <= i < rows && 0 <= j < cols :: CellOk(g[i][j], rows, cols)
  }

  lemma GridOkWellFormed(g: Grid, rows: int, cols: int)
    requires GridOk(g, rows, cols)
    ensures Routing.AllWellFormed(g)
  {
    forall i, j | 0 <= i < |g| && 0 <= j < |g[i]| ensures WellFormed(g[i][j]) {
      assert CellOk(g[i][j], rows, cols);
    }
  }

  /** The nested loops of init_map: nRows rows of nCols fresh cells. */
  method FreshGrid(nRows: int, nCols: int) returns (g: Grid)
    requires nRows >= 0 && nCols >= 0
    ensures GridOk(g, nRows, nCols)
    ensures forall i, j | 0 <= i < nRows && 0 <= j < nCols :: g[i][j] == FreshHexagon
  {
    g := [];
    for i := 0 to nRows
      invariant |g| == i
      invariant forall r | 0 <= r < i :: |g[r]| == nCols && forall c | 0 <= c < nCols :: g[r][c] == FreshHexagon
    {
      var row: seq<Hexagon> := [];
      for j := 0 to nCols
        invariant |row| == j && forall c | 0 <= c < j :: row[c] == FreshHexagon
      {
        row := row + [FreshHexagon];
      }
      g := g + [row];
    }
    FreshHexagonOk(nRows, nCols);
  }

  /** The nested loops of change_cost: every cell of g after the radial edit of strength v around (x, y). */
  method EditGrid(g0: Grid, rows: int, cols: int, x: int, y: int, v: int, radius: int) returns (g: Grid)
    requires GridOk(g0, rows, cols) && radius > 0
    ensures GridOk(g, rows, cols)
    ensures forall i, j | 0 <= i < rows && 0 <= j < cols :: g[i][j] == EditedCell(g0[i][j], x, y, v, radius, j, i)
  {
    g := g0;
    for i := 0 to rows
      invariant |g| == rows && forall r | 0 <= r < rows :: |g[r]| == cols
      invariant forall r, c | 0 <= r < i && 0 <= c < cols :: g[r][c] == EditedCell(g0[r][c], x, y, v, radius, c, r)
      invariant forall r | i <= r < rows :: g[r] == g0[r]
    {
      var row := g[i];
      for j := 0 to cols
        invariant |row| == cols
        invariant forall c | 0 <= c < j :: row[c] == EditedCell(g0[i][c], x, y, v, radius, c, i)
        invariant forall c | j <= c < cols :: row[c] == g0[i][c]
      {
        assert CellOk(g0[i][j], rows, cols);
        row := row[j := EditedCell(row[j], x, y, v, radius, j, i)];
      }
      g := g[i := row];
    }
    forall r, c | 0 <= r < rows && 0 <= c < cols ensures CellOk(g[r][c], rows, cols) {
      assert CellOk(g0[r][c], rows, cols);
      if HexDist(x, y, c, r) < radius {
        FalloffKeepsCellOk(g0[r][c], CostChange(v, radius, HexDist(x, y, c, r)), rows, cols);
      }
    }
  }

  /** Toggling a route between two cells of the grid keeps the grid invariant. */
  lemma ToggleGridOk(g: Grid, rows: int, cols: int, x1: int, y1: int, x2: int, y2: int)
    requires GridOk(g, rows, cols) && InGrid(g, Pos(x1, y1)) && InGrid(g, Pos(x2, y2))
    ensures WellFormed(g[y1][x1])
    ensures GridOk(g[y1 := g[y1][x1 := Toggle(g[y1][x1], x2, y2).cell]], rows, cols)
  {
    assert CellOk(g[y1][x1], rows, cols);
    ToggleKeepsCellOk(g[y1][x1], x2, y2, rows, cols);
  }

  /** Every cached cost is the correct answer to its query on g. */
  ghost predicate Answers(g: Grid, m: map<Key, int>) {
    forall k | k in m :: IsAnswer(g, Pos(k.x1, k.y1), Pos(k.x2, k.y2), m[k])
  }

  /** Dropping an entry, then storing a correct answer, leaves only correct answers. */
  lemma AnswersStore(g: Grid, m: map<Key, int>, e: Key, k: Key, r: int)
    requires Answers(g, m) && IsAnswer(g, Pos(k.x1, k.y1), Pos(k.x2, k.y2), r)
    ensures Answers(g, m[k := r]) && Answers(g, (m - {e})[k := r])
  {
  }

  /** A cached cost is never the empty-slot marker, so a lookup that reports -2 found nothing. */
  lemma AnswersAreCosts(g: Grid, m: map<Key, int>, k: Key)
    requires Answers(g, m)
    ensures k in m ==> m[k] >= Unreachable && m[k] != Empty
  {
    if k in m {
      AnswerMeaning(g, Pos(k.x1, k.y1), Pos(k.x2, k.y2), m[k]);
    }
  }

  /**
   * Storing r under k, possibly after evicting e, keeps every other entry's
   * cost and loses no entry but e.
   */
  lemma StoreKeepsOthers(m: map<Key, int>, m': map<Key, int>, e: Key, k: Key, r: int)
    requires m' == m[k := r] || m' == (m - {e})[k := r]
    ensures k in m' && m'[k] == r
    ensures forall q | q in m' && q != k :: q in m && m'[q] == m[q]
    ensures forall q | q in m && q != e :: q in m'
  {
  }

  lemma NothingCached(g: Grid)
    ensures Answers(g, map[])
  {
  }

  class HexMap {
    /** The cells, row y and column x at grid[y][x]. */
    var grid: Grid
    var rows: int
    var cols: int
    /** The travel-cost cache. */
    const cache: ResultCache

    /**
     * The class invariant: the grid has its dimensions, every cell keeps the
     * per-cell invariant, the cache probes with the source's hash, and every
     * cached cost is the correct answer to its query on the current grid.
     */
    ghost predicate Valid()
      reads this, cache, cache.table
    {
      && GridOk(grid, rows, cols)
      && cache.Valid()
      && cache.SourceHash()
      && Answers(grid, cache.Contents())
    }

    /** The state before the first init_map: no rows, no columns, an empty cache. */
    constructor ()
      ensures Valid() && grid == [] && rows == 0 && cols == 0
      ensures cache.Contents() == map[] && fresh(cache) && fresh(cache.table)
    {
      grid := [];
      rows := 0;
      cols := 0;
      cache := new ResultCache();
      NothingCached([]);
    }

    /** is_valid: row r and column c name a cell of the grid. */
    function IsValid(r: int, c: int): (b: bool)
      reads this
      ensures HasShape(grid, rows, cols) ==> (b <==> InGrid(grid, Pos(c, r)))
    {
      Paths.IsValid(rows, cols, r, c)
    }

    /** init_map: empty the cache and replace the grid by nRows x nCols fresh cells of cost 1 and no routes. */
    method InitMap(nRows: int, nCols: int)
      requires Valid() && nRows >= 0 && nCols >= 0
      modifies this, cache, cache.table
      ensures Valid() && rows == nRows && cols == nCols && |grid| == nRows
      ensures forall i, j | 0 <= i < nRows && 0 <= j < nCols :: |grid[i]| == nCols && grid[i][j] == FreshHexagon
      ensures cache.Contents() == map[]
    {
      cache.Clear();
      var g := FreshGrid(nRows, nCols);
      grid, rows, cols := g, nRows, nCols;
      NothingCached(grid);
    }

    /**
     * change_cost: refuse an edit outside the grid, with a non-positive radius
     * or a strength outside -10..10 and change nothing; otherwise empty the
     * cache and apply the radial edit to every cell.
     */
    method ChangeCost(x: int, y: int, v: int, radius: int) returns (ok: bool)
      requires Valid()
      modifies this, cache, cache.table
      ensures Valid() && rows == old(rows) && cols == old(cols)
      ensures ok <==> old(IsValid(y, x)) && radius > 0 && -MaxStrength <= v <= MaxStrength
      ensures !ok ==> grid == old(grid) && cache.Contents() == old(cache.Contents())
      ensures ok ==> cache.Contents() == map[]
      ensures ok ==> forall i, j | 0 <= i < rows && 0 <= j < cols ::
                       grid[i][j] == EditedCell(old(grid)[i][j], x, y, v, radius, j, i)
    {
      if !IsValid(y, x) || radius <= 0 || v < -MaxStrength || v > MaxStrength {
        return false;
      }
      cache.Clear();
      grid := EditGrid(grid, rows, cols, x, y, v, radius);
      NothingCached(grid);
      return true;
    }

    /**
     * toggle_air_route: refuse endpoints outside the grid and change nothing;
     * otherwise empty the cache and toggle the route from (x1, y1) to (x2, y2).
     */
    method ToggleAirRoute(x1: int, y1: int, x2: int, y2: int) returns (ok: bool)
      requires Valid()
      modifies this, cache, cache.table
      ensures Valid() && rows == old(rows) && cols == old(cols)
      ensures !old(IsValid(y1, x1) && IsValid(y2, x2)) ==>
                !ok && grid == old(grid) && cache.Contents() == old(cache.Contents())
      ensures old(IsValid(y1, x1) && IsValid(y2, x2)) ==>
                && ok == Toggle(old(grid)[y1][x1], x2, y2).ok
                && grid == old(grid)[y1 := old(grid)[y1][x1 := Toggle(old(grid)[y1][x1], x2, y2).cell]]
                && cache.Contents() == map[]
    {
      if !IsValid(y1, x1) || !IsValid(y2, x2) {
        return false;
      }
      cache.Clear();
      ToggleGridOk(grid, rows, cols, x1, y1, x2, y2);
      var t := Toggle(grid[y1][x1], x2, y2);
      grid := grid[y1 := grid[y1][x1 := t.cell]];
      NothingCached(grid);
      return t.ok;
    }

    /**
     * set_cached_cost on a query's answer: the cache keeps only correct answers
     * and now holds this one. Every other entry keeps its cost; with room left
     * nothing is lost, and on a full table at most the key in the query's home
     * slot is evicted.
     */
    method Remember(xp: int, yp: int, xd: int, yd: int, r: int)
      requires Valid() && IsAnswer(grid, Pos(xp, yp), Pos(xd, yd), r)
      modifies cache, cache.table
      ensures Valid()
      ensures Key(xp, yp, xd, yd) in cache.Contents() && cache.Contents()[Key(xp, yp, xd, yd)] == r
      ensures forall q | q in cache.Contents() && q != Key(xp, yp, xd, yd) ::
                q in old(cache.Contents()) && cache.Contents()[q] == old(cache.Contents())[q]
      ensures |old(cache.Contents())| < CacheSize ==> cache.Contents() == old(cache.Contents())[Key(xp, yp, xd, yd) := r]
      ensures forall q | q in old(cache.Contents()) && q != KeyOf(old(cache.table[HashKey(Key(xp, yp, xd, yd))])) ::
                q in cache.Contents()
    {
      AnswerMeaning(grid, Pos(xp, yp), Pos(xd, yd), r);
      ghost var k, before := Key(xp, yp, xd, yd), cache.Contents();
      ghost var evicted, count := KeyOf(cache.table[cache.hashOf(k)]), cache.cacheCount;
      AnswersStore(grid, before, evicted, k, r);
      cache.CountBounded();
      cache.Set(xp, yp, xd, yd, r);
      if k in before || count < CacheSize {
        assert cache.Contents() == before[k := r];
      } else {
        assert |before| == CacheSize;
        assert cache.Contents() == (before - {evicted})[k := r];
      }
      StoreKeepsOthers(before, cache.Contents(), evicted, k, r);
    }

    /**
     * travel_cost: -1 for endpoints outside the grid, 0 from a cell to itself,
     * the cached cost when the query was answered before, and otherwise the
     * search's answer, which is then cached. Every answer for endpoints in the
     * grid is the correct one: the least walk weight, or -1 when the target
     * cannot be reached.
     */
    method TravelCost(xp: int, yp: int, xd: int, yd: int) returns (r: int)
      requires Valid()
      modifies cache, cache.table
      ensures Valid()
      ensures !(IsValid(yp, xp) && IsValid(yd, xd)) ==> r == -1 && cache.Contents() == old(cache.Contents())
      ensures IsValid(yp, xp) && IsValid(yd, xd) ==> IsAnswer(grid, Pos(xp, yp), Pos(xd, yd), r)
      ensures IsValid(yp, xp) && IsValid(yd, xd) && xp == xd && yp == yd ==>
                r == 0 && cache.Contents() == old(cache.Contents())
      ensures IsValid(yp, xp) && IsValid(yd, xd) && (xp != xd || yp != yd) ==>
                if Key(xp, yp, xd, yd) in old(cache.Contents())
                then r == old(cache.Contents())[Key(xp, yp, xd, yd)] && cache.Contents() == old(cache.Contents())
                else
                  && Key(xp, yp, xd, yd) in cache.Contents() && cache.Contents()[Key(xp, yp, xd, yd)] == r
                  && (forall q | q in cache.Contents() && q != Key(xp, yp, xd, yd) ::
                        q in old(cache.Contents()) && cache.Contents()[q] == old(cache.Contents())[q])
                  && (|old(cache.Contents())| < CacheSize ==> cache.Contents() == old(cache.Contents())[Key(xp, yp, xd, yd) := r])
                  && (forall q | q in old(cache.Contents()) && q != KeyOf(old(cache.table[HashKey(Key(xp, yp, xd, yd))])) ::
                        q in cache.Contents())
    {
      if !IsValid(yp, xp) || !IsValid(yd, xd) {
        return -1;
      }
      if xp == xd && yp == yd {
        SelfAnswer(grid, Pos(xp, yp));
        return 0;
      }
      AnswersAreCosts(grid, cache.Contents(), Key(xp, yp, xd, yd));
      var cached := cache.Get(xp, yp, xd, yd);
      if cached != Empty {
        return cached;
      }
      GridOkWellFormed(grid, rows, cols);
      r := Routing.ShortestPath(grid, rows, cols, xp, yp, xd, yd);
      Remember(xp, yp, xd, yd, r);
    }
  }

  /** A grid of fresh cells is uniform terrain. */
  lemma FreshGridUniform(g: Grid, rows: int, cols: int)
    requires HasShape(g, rows, cols)
    requires forall i, j | 0 <= i < rows && 0 <= j < cols :: g[i][j] == FreshHexagon
    ensures Uniform(g)
  {
  }

  /**
   * init_map followed by travel_cost: on the fresh terrain every query
   * between two cells of the grid costs exactly their hex distance, and any
   * other query -1.
   */
  method FreshTravelCost(m: HexMap, nRows: int, nCols: int, xp: int, yp: int, xd: int, yd: int) returns (r: int)
    requires m.Valid() && nRows >= 0 && nCols >= 0
    modifies m, m.cache, m.cache.table
    ensures m.Valid() && m.rows == nRows && m.cols == nCols
    ensures r == if IsValid(nRows, nCols, yp, xp) && IsValid(nRows, nCols, yd, xd) then HexDist(xp, yp, xd, yd) else -1
  {
    m.InitMap(nRows, nCols);
    FreshGridUniform(m.grid, nRows, nCols);
    r := m.TravelCost(xp, yp, xd, yd);
    if IsValid(nRows, nCols, yp, xp) && IsValid(nRows, nCols, yd, xd) {
      UniformAnswer(m.grid, Pos(xp, yp), Pos(xd, yd), r);
    }
  }
}
