/**
 * One terrain cell: its cost and its fixed five-slot table of outgoing air
 * routes, with the value-level rules the grid applies to a cell (clamping,
 * the radial falloff, toggling a route).
 */
module Hexagons {

  const MaxAirRoutes := 5
  const MinCost := 0
  const MaxCost := 100

  datatype AirRoute = AirRoute(destX: int, destY: int, cost: int)

  /**
   * A cell. `airRoutes` is the fixed buffer of MaxAirRoutes slots and
   * `numAirRoutes` the number of live slots at its front; slots past the count
   * carry whatever was left there.
   */
  datatype Hexagon = Hexagon(cost: int, airRoutes: seq<AirRoute>, numAirRoutes: int)

  /** What an unused slot holds in this model (the source leaves that memory uninitialised). */
  const UnusedSlot := AirRoute(0, 0, 0)

  /** A cell as (re)initialisation creates it: cost 1, no routes. */
  const FreshHexagon := Hexagon(1, [UnusedSlot, UnusedSlot, UnusedSlot, UnusedSlot, UnusedSlot], 0)

  ghost predicate WellFormed(h: Hexagon) {
    |h.airRoutes| == MaxAirRoutes && 0 <= h.numAirRoutes <= MaxAirRoutes
  }

  /** The live route list. */
  function Routes(h: Hexagon): seq<AirRoute>
    requires 0 <= h.numAirRoutes <= |h.airRoutes|
  {
    h.airRoutes[..h.numAirRoutes]
  }

  /**
   * The per-cell part of the grid invariant: costs in range, at most five
   * routes, every live route in range and pointing into a rows x cols grid,
   * and no two live routes with the same destination.
   */
  ghost predicate CellOk(h: Hexagon, rows: int, cols: int) {
    && WellFormed(h)
    && MinCost <= h.cost <= MaxCost
    && (forall k | 0 <= k < h.numAirRoutes ::
          MinCost <= h.airRoutes[k].cost <= MaxCost
          && 0 <= h.airRoutes[k].destX < cols && 0 <= h.airRoutes[k].destY < rows)
    && (forall k, m | 0 <= k < m < h.numAirRoutes ::
          (h.airRoutes[k].destX, h.airRoutes[k].destY) != (h.airRoutes[m].destX, h.airRoutes[m].destY))
  }

  function Clamp(c: int): (r: int)
    ensures MinCost <= r <= MaxCost
    ensures MinCost <= c <= MaxCost ==> r == c
    ensures c < MinCost ==> r == MinCost
    ensures c > MaxCost ==> r == MaxCost
  {
    if c < MinCost then MinCost else if c > MaxCost then MaxCost else c
  }

  lemma FreshHexagonOk(rows: int, cols: int)
    ensures CellOk(FreshHexagon, rows, cols) && Routes(FreshHexagon) == []
  {
  }

  // ---------------------------------------------------------------- falloff

  /**
   * The change a radial edit of strength v and radius `radius` makes at hex
   * distance `dist`: the floor of v * (radius - dist) / radius. The source
   * computes it in double precision; here it is exact.
   */
  function CostChange(v: int, radius: int, dist: int): (c: int)
    requires radius > 0
    ensures c * radius <= v * (radius - dist) < (c + 1) * radius
  {
    (v * (radius - dist)) / radius
  }

  lemma MulMonotone(a: int, x: int, y: int)
    requires a >= 0 && x <= y
    ensures a * x <= a * y
  {
    assert a * y - a * x == a * (y - x);
  }

  lemma DivMonotone(a: int, b: int, r: int)
    requires r > 0 && a <= b
    ensures a / r <= b / r
  {
    if a / r > b / r {
      MulMonotone(r, b / r + 1, a / r);
    }
  }

  lemma DivOfMultiple(v: int, r: int)
    requires r > 0
    ensures (v * r) / r == v
  {
    var c := (v * r) / r;
    if c < v {
      MulMonotone(r, c + 1, v);
    } else if c > v {
      MulMonotone(r, v + 1, c);
    }
  }

  /** At the centre the change is v itself. */
  lemma CostChangeAtCentre(v: int, radius: int)
    requires radius > 0
    ensures CostChange(v, radius, 0) == v
  {
    assert v * (radius - 0) == v * radius;
    DivOfMultiple(v, radius);
  }

  /** The change fades with distance: it is never larger in magnitude farther out. */
  lemma CostChangeFades(v: int, radius: int, d1: int, d2: int)
    requires radius > 0 && 0 <= d1 <= d2 < radius
    ensures 0 <= v ==> CostChange(v, radius, d2) <= CostChange(v, radius, d1)
    ensures v < 0 ==> CostChange(v, radius, d1) <= CostChange(v, radius, d2)
  {
    if 0 <= v {
      MulMonotone(v, radius - d2, radius - d1);
      DivMonotone(v * (radius - d2), v * (radius - d1), radius);
    } else {
      MulMonotone(-v, radius - d2, radius - d1);
      assert v * (radius - d1) <= v * (radius - d2);
      DivMonotone(v * (radius - d1), v * (radius - d2), radius);
    }
  }

  /**
   * Inside the radius the change is non-negative and at most v for v >= 0,
   * and negative and at least v for v < 0.
   */
  lemma CostChangeBounds(v: int, radius: int, d: int)
    requires radius > 0 && 0 <= d < radius
    ensures 0 <= v ==> 0 <= CostChange(v, radius, d) <= v
    ensures v < 0 ==> v <= CostChange(v, radius, d) < 0
  {
    var c := CostChange(v, radius, d);
    CostChangeAtCentre(v, radius);
    CostChangeFades(v, radius, 0, d);
    if 0 <= v {
      MulMonotone(v, 0, radius - d);
      DivMonotone(0, v * (radius - d), radius);
    } else {
      MulMonotone(-v, 1, radius - d);
      assert v * (radius - d) <= -1;
      DivMonotone(v * (radius - d), -1, radius);
    }
  }

  /** A route after a change of `change`: its cost moves and is clamped, its destination stays. */
  function ShiftRoute(a: AirRoute, change: int): AirRoute {
    a.(cost := Clamp(a.cost + change))
  }

  /**
   * A cell after a radial edit reaches it: the cell's cost and every live
   * route's cost move by the same change and are clamped; the count, the
   * destinations and the unused slots stay.
   */
  function Falloff(h: Hexagon, change: int): (r: Hexagon)
    requires WellFormed(h)
  {
    Hexagon(Clamp(h.cost + change),
            seq(MaxAirRoutes, k requires 0 <= k < MaxAirRoutes =>
              if k < h.numAirRoutes then ShiftRoute(h.airRoutes[k], change) else h.airRoutes[k]),
            h.numAirRoutes)
  }

  lemma FalloffKeepsCellOk(h: Hexagon, change: int, rows: int, cols: int)
    requires CellOk(h, rows, cols)
    ensures CellOk(Falloff(h, change), rows, cols)
    ensures |Routes(Falloff(h, change))| == |Routes(h)|
    ensures forall k | 0 <= k < h.numAirRoutes ::
              Routes(Falloff(h, change))[k] == ShiftRoute(Routes(h)[k], change)
  {
  }

  // ---------------------------------------------------------------- toggle

  /** Whether a route goes to (dx, dy). */
  predicate GoesTo(a: AirRoute, dx: int, dy: int) {
    a.destX == dx && a.destY == dy
  }

  /** The index of the first route to (dx, dy), or -1 when there is none. */
  function FindRoute(routes: seq<AirRoute>, dx: int, dy: int): (i: int)
    ensures -1 <= i < |routes|
    ensures i == -1 ==> forall k | 0 <= k < |routes| :: !GoesTo(routes[k], dx, dy)
    ensures i >= 0 ==> GoesTo(routes[i], dx, dy) && forall k | 0 <= k < i :: !GoesTo(routes[k], dx, dy)
  {
    if routes == [] then -1
    else if GoesTo(routes[0], dx, dy) then 0
    else
      var j := FindRoute(routes[1..], dx, dy);
      if j == -1 then -1 else j + 1
  }

  /**
   * The slot buffer after the stable compaction that removes slot i of the n
   * live ones: slots i+1 .. n-1 move down by one, slot n-1 keeps its old value.
   */
  function ShiftDown(slots: seq<AirRoute>, i: int, n: int): (r: seq<AirRoute>)
    requires 0 <= i < n <= |slots|
  {
    slots[..i] + slots[i+1..n] + slots[n-1..]
  }

  datatype Toggled = Toggled(cell: Hexagon, ok: bool)

  /**
   * Toggling the route to (dx, dy) on a cell: remove the first such route by
   * stable compaction if there is one; otherwise, with five routes already,
   * refuse; otherwise append a route whose cost is the cell's clamped cost.
   */
  function Toggle(h: Hexagon, dx: int, dy: int): (t: Toggled)
    requires WellFormed(h)
  {
    var i := FindRoute(Routes(h), dx, dy);
    if i >= 0 then
      Toggled(h.(airRoutes := ShiftDown(h.airRoutes, i, h.numAirRoutes), numAirRoutes := h.numAirRoutes - 1), true)
    else if h.numAirRoutes >= MaxAirRoutes then
      Toggled(h, false)
    else
      Toggled(h.(airRoutes := h.airRoutes[h.numAirRoutes := AirRoute(dx, dy, Clamp(h.cost))],
                 numAirRoutes := h.numAirRoutes + 1), true)
  }

  lemma ToggleWellFormed(h: Hexagon, dx: int, dy: int)
    requires WellFormed(h)
    ensures WellFormed(Toggle(h, dx, dy).cell)
    ensures Toggle(h, dx, dy).cell.cost == h.cost
  {
  }

  /** An existing route is removed; the others keep their order and the count drops by one. */
  lemma ToggleRemoves(h: Hexagon, dx: int, dy: int)
    requires WellFormed(h) && FindRoute(Routes(h), dx, dy) >= 0
    ensures var i := FindRoute(Routes(h), dx, dy);
            var t := Toggle(h, dx, dy);
            t.ok && t.cell.numAirRoutes == h.numAirRoutes - 1
            && Routes(t.cell) == Routes(h)[..i] + Routes(h)[i+1..]
  {
    var i := FindRoute(Routes(h), dx, dy);
    var t := Toggle(h, dx, dy);
    var n := h.numAirRoutes;
    assert t.cell.airRoutes[..n-1] == h.airRoutes[..i] + h.airRoutes[i+1..n];
    assert Routes(h)[..i] == h.airRoutes[..i];
    assert Routes(h)[i+1..] == h.airRoutes[i+1..n];
  }

  /** With no such route and room in the table, the route is appended at the clamped cell cost. */
  lemma ToggleAppends(h: Hexagon, dx: int, dy: int)
    requires WellFormed(h) && FindRoute(Routes(h), dx, dy) == -1 && h.numAirRoutes < MaxAirRoutes
    ensures var t := Toggle(h, dx, dy);
            t.ok && t.cell.numAirRoutes == h.numAirRoutes + 1
            && Routes(t.cell) == Routes(h) + [AirRoute(dx, dy, Clamp(h.cost))]
  {
    var t := Toggle(h, dx, dy);
    assert Routes(t.cell) == Routes(h) + [AirRoute(dx, dy, Clamp(h.cost))];
  }

  /** With no such route and a full table, the toggle is refused and nothing changes. */
  lemma ToggleFullRefuses(h: Hexagon, dx: int, dy: int)
    requires WellFormed(h) && FindRoute(Routes(h), dx, dy) == -1 && h.numAirRoutes >= MaxAirRoutes
    ensures Toggle(h, dx, dy) == Toggled(h, false)
  {
  }

  lemma RemoveKeepsCellOk(h: Hexagon, dx: int, dy: int, rows: int, cols: int)
    requires CellOk(h, rows, cols) && FindRoute(Routes(h), dx, dy) >= 0
    ensures CellOk(Toggle(h, dx, dy).cell, rows, cols)
  {
    var i := FindRoute(Routes(h), dx, dy);
    var c := Toggle(h, dx, dy).cell;
    assert forall k | 0 <= k < c.numAirRoutes :: c.airRoutes[k] == h.airRoutes[if k < i then k else k + 1];
  }

  lemma AppendKeepsCellOk(h: Hexagon, dx: int, dy: int, rows: int, cols: int)
    requires CellOk(h, rows, cols) && 0 <= dx < cols && 0 <= dy < rows
    requires FindRoute(Routes(h), dx, dy) == -1 && h.numAirRoutes < MaxAirRoutes
    ensures CellOk(Toggle(h, dx, dy).cell, rows, cols)
  {
    var c := Toggle(h, dx, dy).cell;
    var n := h.numAirRoutes;
    assert forall k | 0 <= k < n :: c.airRoutes[k] == Routes(h)[k];
  }

  /** Toggling keeps the per-cell invariant when the destination lies in the grid. */
  lemma ToggleKeepsCellOk(h: Hexagon, dx: int, dy: int, rows: int, cols: int)
    requires CellOk(h, rows, cols) && 0 <= dx < cols && 0 <= dy < rows
    ensures CellOk(Toggle(h, dx, dy).cell, rows, cols)
  {
    if FindRoute(Routes(h), dx, dy) >= 0 {
      RemoveKeepsCellOk(h, dx, dy, rows, cols);
    } else if h.numAirRoutes < MaxAirRoutes {
      AppendKeepsCellOk(h, dx, dy, rows, cols);
    }
  }

  /** Adding a route and toggling the same pair again restores the exact route list. */
  lemma ToggleAddThenRemove(h: Hexagon, dx: int, dy: int)
    requires WellFormed(h) && FindRoute(Routes(h), dx, dy) == -1 && h.numAirRoutes < MaxAirRoutes
    ensures var t := Toggle(h, dx, dy);
            var u := Toggle(t.cell, dx, dy);
            t.ok && u.ok && u.cell.numAirRoutes == h.numAirRoutes && Routes(u.cell) == Routes(h)
  {
    ToggleAppends(h, dx, dy);
    var t := Toggle(h, dx, dy);
    var rs := Routes(h);
    var i := FindRoute(Routes(t.cell), dx, dy);
    assert GoesTo(Routes(t.cell)[|rs|], dx, dy);
    assert i == |rs|;
    ToggleRemoves(t.cell, dx, dy);
  }

  /**
   * Removing a route and toggling the same pair again restores the route count
   * and puts the route to (dx, dy) back, at the end and with the current clamped
   * cell cost rather than its old one.
   */
  lemma ToggleRemoveThenAdd(h: Hexagon, dx: int, dy: int, rows: int, cols: int)
    requires CellOk(h, rows, cols) && FindRoute(Routes(h), dx, dy) >= 0
    ensures var i := FindRoute(Routes(h), dx, dy);
            var t := Toggle(h, dx, dy);
            var u := Toggle(t.cell, dx, dy);
            t.ok && u.ok && u.cell.numAirRoutes == h.numAirRoutes
            && Routes(u.cell) == Routes(h)[..i] + Routes(h)[i+1..] + [AirRoute(dx, dy, Clamp(h.cost))]
  {
    var i := FindRoute(Routes(h), dx, dy);
    ToggleRemoves(h, dx, dy);
    var t := Toggle(h, dx, dy);
    var rs := Routes(t.cell);
    forall k | 0 <= k < |rs| ensures !GoesTo(rs[k], dx, dy) {
      var j := if k < i then k else k + 1;
      assert rs[k] == h.airRoutes[j];
      assert (h.airRoutes[i].destX, h.airRoutes[i].destY) != (h.airRoutes[j].destX, h.airRoutes[j].destY);
    }
    ToggleAppends(t.cell, dx, dy);
  }
}
