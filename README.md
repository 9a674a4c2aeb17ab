# Hex terrain map and travel-cost engine — a Dafny model

This project models the core of `24.c`: a rectangular map of hexagonal cells
in "odd-r" offset coordinates. Each cell has a traversal cost in 0..100 and up
to five one-way air routes, each with its own cost. The core has four public
operations:

- `init_map` builds a fresh grid of cost-1 cells with no routes.
- `change_cost` applies a radial edit of strength -10..10. The change fades
  linearly with hex distance, and every affected cost is clamped to 0..100.
- `toggle_air_route` removes the route to a destination if the cell has one,
  and otherwise adds it at the cell's clamped cost. A cell keeps at most five
  routes.
- `travel_cost` answers shortest-path queries. It runs Dijkstra's algorithm
  with a binary min-heap and lazy deletion, and memoises each answer in an
  open-addressing cache of 10000 slots that every edit empties.

`24.c` is a single file; the model splits it by concern into seven modules:

- `Geometry` (geometry.dfy): offset and cube coordinates, hex distance and
  the two neighbour tables.
- `Hexagons` (hexagon.dfy): the cell and its routes as values, the per-cell
  invariant, the radial change and the toggle.
- `Paths` (paths.dfy): the graph the router searches and what a correct
  answer to a query is. A walk uses ground edges, weighted by the cost of the
  cell being left (only when that cost is positive), and live air routes of
  positive cost. The answer is the least walk weight, or -1 when the target
  is unreachable.
- `MinHeap` (heap.dfy): the priority queue as a class over a growable array
  of nodes. It has push with sift-up, pop with sift-down, an emptiness test
  and free.
- `ResultCaches` (cache.dfy): the result cache as a class over a fixed array
  of entries. It has the 32-bit hash, lookup by linear probing, store with
  the count and the full-table overwrite, and clear.
- `Routing` (routing.dfy): the search loop of `travel_cost`, written as
  imperative methods over the `min_costs` array and the queue. It is proved
  against `Paths.IsAnswer`.
- `HexMaps` (hexmap.dfy): the map object. It holds the grid, its dimensions
  and the cache, and offers `init_map`, `is_valid`, `change_cost`,
  `toggle_air_route` and `travel_cost`. Its class invariant says that the
  cache probes with the hash of 24.c:395-397 and that every cached cost is
  the correct answer to its query on the current grid.

The central results:

- `Routing.ShortestPath` returns `IsAnswer` for any pair of in-grid
  endpoints.
- `HexMaps.HexMap.TravelCost` returns the correct answer whether or not the
  cache is hit, and keeps the cache consistent.
- On uniform terrain (every cell cost 1, no air routes) the correct answer is
  the hex distance (`Paths.UniformAnswer`). So right after `init_map`, a
  query between two cells of the grid returns `hex_dist` of its endpoints
  (`HexMaps.FreshTravelCost`).

## Model

| member | source | states |
|---|---|---|
| Geometry.OffsetToCube | 24.c:357-362 | the cube coordinates of an offset cell sum to zero, and converting back gives the same column and row |
| Geometry.CubeDistance | 24.c:364-366 | twice the distance is the sum of the three coordinate differences, so halving that sum is exact |
| Geometry.HexDist | 24.c:368-372 | the distance of two offset cells through their cube coordinates; its contract is carried by HexDistSymmetric, HexDistZeroIff, HexDistTriangle, NeighbourAtDistanceOne, DistanceOneIsNeighbour and StepTowards |
| Geometry.DeltaRow | 24.c:288-291 | the row step of neighbour i for the row's parity; its contract is carried by NeighbourAtDistanceOne and DistanceOneIsNeighbour |
| Geometry.DeltaCol | 24.c:288-291 | the column step of neighbour i for the row's parity; its contract is carried by NeighbourAtDistanceOne and DistanceOneIsNeighbour |
| Geometry.HexDistSymmetric | 24.c:368-372 | hex distance does not depend on the order of its two cells |
| Geometry.HexDistZeroIff | 24.c:368-372 | the hex distance is 0 exactly when the two cells coincide |
| Geometry.NeighbourAtDistanceOne | 24.c:288-291 | each of the six entries of a row's neighbour table leads to a cell at hex distance 1 |
| Geometry.DistanceOneIsNeighbour | 24.c:288-291 | every cell at hex distance 1 is reached by some entry of the neighbour table for the row's parity |
| Geometry.CubeTriangle | 24.c:364-366 | cube distance satisfies the triangle inequality |
| Geometry.HexDistTriangle | 24.c:368-372 | hex distance satisfies the triangle inequality |
| Geometry.CubeNearer | 24.c:364-366 | a unit cube step in the direction of the target, chosen by the sign pattern of the differences, brings a cell exactly one closer to the target |
| Geometry.StepAlong | 24.c:288-291 | from a cell (xt, yt) in the row of the goal (xs, ys), some entry of its neighbour table leads to a cell adjacent to it and one hex closer to the goal, inside the box spanned by the two cells |
| Geometry.StepUp | 24.c:288-291 | from a cell (xt, yt) below the row of the goal (xs, ys), some entry of its neighbour table leads to a cell adjacent to it and one hex closer to the goal, inside the box spanned by the two cells |
| Geometry.StepDown | 24.c:288-291 | from a cell (xt, yt) above the row of the goal (xs, ys), some entry of its neighbour table leads to a cell adjacent to it and one hex closer to the goal, inside the box spanned by the two cells |
| Geometry.StepTowards | 24.c:288-291 | from any cell (xt, yt) other than the goal (xs, ys), some entry of its neighbour table leads to a cell adjacent to it and one hex closer to the goal, inside the box spanned by the two cells |
| Hexagons.Clamp | 24.c:197-198 | the result lies in 0..100, equals the input inside that range and is the nearer bound outside it |
| Hexagons.FreshHexagonOk | 24.c:177-179 | a fresh cell (cost 1, no routes) satisfies the per-cell invariant for any grid size |
| Hexagons.CostChange | 24.c:193-194 | the change is the floor of v*(radius-dist)/radius: c*radius <= v*(radius-dist) < (c+1)*radius |
| Hexagons.CostChangeAtCentre | 24.c:191-194 | at distance 0 the change is the full strength v |
| Hexagons.CostChangeFades | 24.c:192-194 | the change never grows in magnitude with distance, for either sign of v |
| Hexagons.CostChangeBounds | 24.c:192-194 | inside the radius the change is non-negative and at most v for v >= 0, and negative and at least v for v < 0 |
| Hexagons.Falloff | 24.c:196-204 | the cell after a radial change; its contract is carried by FalloffKeepsCellOk |
| Hexagons.FalloffKeepsCellOk | 24.c:196-204 | the edited cell keeps the per-cell invariant; each live route's cost moves by the same change and is clamped, and its destination stays |
| Hexagons.FindRoute | 24.c:218-219 | either -1 with no live route to the destination, or the index of the first route to it |
| Hexagons.Toggle | 24.c:217-249 | the cell after a toggle and whether it succeeded; its contract is carried by ToggleRemoves, ToggleAppends, ToggleFullRefuses, ToggleWellFormed and ToggleKeepsCellOk |
| Hexagons.ShiftDown | 24.c:220-223 | the loop that moves the routes after index i one slot down; its contract (stable compaction of the live routes) is carried by ToggleRemoves |
| Hexagons.ToggleWellFormed | 24.c:211-250 | a toggle keeps the slot count and the route count bounds, and does not touch the cell cost |
| Hexagons.ToggleRemoves | 24.c:218-225 | an existing route is removed by stable compaction: the others keep their order and the count drops by one |
| Hexagons.ToggleAppends | 24.c:241-249 | with no such route and room left, the route is appended at the cell's clamped cost |
| Hexagons.ToggleFullRefuses | 24.c:228-230 | with no such route and five routes already, the toggle fails and the cell is unchanged |
| Hexagons.ToggleKeepsCellOk | 24.c:211-250 | a toggle to an in-grid destination keeps costs in range, destinations in the grid and destinations distinct |
| Hexagons.ToggleAddThenRemove | 24.c:218-249 | adding a route and toggling the same pair again restores the exact route list |
| Hexagons.ToggleRemoveThenAdd | 24.c:218-249 | removing a route and toggling again brings it back at the end, with the current clamped cell cost |
| Paths.Neighbour | 24.c:312-317 | the cell reached by neighbour entry i; its contract is carried by Paths.NeighbourIsAdjacent and Routing.NeighbourEdge |
| Paths.NeighbourIsAdjacent | 24.c:312-317 | the cell reached by any neighbour entry is at hex distance 1 |
| Paths.WeightNonNegative | 24.c:319-336 | every walk weighs at least 0, because every edge weight is positive |
| Paths.AchievableExtend | 24.c:319-322 | an achievable cost plus an edge out of its cell is achievable at the next cell |
| Paths.SelfAnswer | 24.c:256-258 | 0 is the correct answer from a cell to itself |
| Paths.AnswerMeaning | 24.c:293 | an answer is -1 exactly when the target cannot be reached, and otherwise is non-negative |
| Paths.AnswerUnique | 24.c:252-350 | two correct answers to the same query on the same grid are equal, so the cache can stand in for the search |
| Paths.UniformEdge | 24.c:311-319 | on uniform terrain every edge is a ground edge of weight 1 between cells at hex distance 1 |
| Paths.UniformWalkBound | 24.c:295-341 | on uniform terrain every walk weighs at least the hex distance between its ends |
| Paths.UniformAchievable | 24.c:311-322 | on uniform terrain the hex distance between two cells of the grid is the weight of some walk |
| Paths.UniformAnswer | 24.c:252-350 | on uniform terrain the target is reachable and the correct answer is the hex distance |
| Paths.AirRouteBoundsAnswer | 24.c:328-337 | a live air route of positive cost c from s to t bounds the answer for s to t by c |
| MinHeap.HeapRootMin | 24.c:462-467 | in a heap-ordered array, the root costs no more than any element |
| MinHeap.RootIsCheapest | 24.c:470-474 | the root is a cheapest node of the whole queue |
| MinHeap.SiftUpStep | 24.c:462-467 | one sift-up swap moves the single violation of the heap order to the parent and keeps the nodes |
| MinHeap.SiftDownStep | 24.c:479-496 | one sift-down swap with the smaller child moves the violation one level down and keeps the nodes |
| MinHeap.SiftDownDone | 24.c:497-499 | when a node is no dearer than its children, the array is a heap |
| MinHeap.RootRemoved | 24.c:475-477 | moving the last node to the root removes exactly the old root from the multiset of nodes |
| MinHeap.PriorityQueue.constructor | 24.c:438-445 | an empty valid queue of capacity 10 |
| MinHeap.PriorityQueue.IsEmpty | 24.c:504-506 | true exactly when the queue holds no node |
| MinHeap.PriorityQueue.Push | 24.c:447-468 | the queue stays a heap and gains exactly the new node; the capacity doubles when the array was full |
| MinHeap.PriorityQueue.Grow | 24.c:448-455 | a fresh array of twice the capacity holding the same live nodes |
| MinHeap.PriorityQueue.Append | 24.c:457-460 | the node is written after the live ones and the size grows by one |
| MinHeap.PriorityQueue.SiftUp | 24.c:461-467 | the live nodes form a heap again and are a permutation of the nodes before |
| MinHeap.PriorityQueue.Pop | 24.c:470-502 | on an empty queue {-1,-1,-1} is returned and nothing changes; otherwise a cheapest node is removed and returned, and the size drops by one |
| MinHeap.PriorityQueue.TakeRoot | 24.c:475-501 | the root is returned, the rest stays a heap, and the size drops by one |
| MinHeap.PriorityQueue.RemoveRoot | 24.c:475-477 | the last node moves to the root and the size drops by one |
| MinHeap.PriorityQueue.SiftDown | 24.c:479-500 | the live nodes form a heap again and are a permutation of the nodes before |
| MinHeap.PriorityQueue.Exchange | 24.c:463-466 | the two slots are swapped |
| MinHeap.PriorityQueue.Free | 24.c:508-515 | size and capacity become 0 and the node array is released (empty) |
| ResultCaches.Low32 | 24.c:396 | helper of Hash, stating only a range: the unsigned 32-bit wrap of a product lies in 0 .. 2^32-1 |
| ResultCaches.Xor | 24.c:396 | the bitwise exclusive or of the low `bits` bits is non-negative; its per-bit meaning is carried by XorBit, and XorBelow, XorCommutes, XorSelf and XorZero state its range and algebraic facts |
| ResultCaches.XorBit | 24.c:396 | bit k of the result, for k below `bits`, is set exactly when bit k is set in one operand only |
| ResultCaches.XorBelow | 24.c:396 | the exclusive or of 32-bit values fits in 32 bits |
| ResultCaches.XorCommutes | 24.c:396 | exclusive or does not depend on the order of its operands |
| ResultCaches.XorSelf | 24.c:396 | a value exclusive-ored with itself is 0 |
| ResultCaches.XorZero | 24.c:396 | exclusive or with 0 keeps the low `bits` bits of a value |
| ResultCaches.Hash | 24.c:395-397 | the home slot lies in 0..9999 |
| ResultCaches.ProbeWraps | 24.c:404-405 | the probe step `(index + i) % CacheS` stays inside the table |
| ResultCaches.ProbeOffset | 24.c:404-405 | every slot is visited exactly once in the 10000 probes from a home slot |
| ResultCaches.InjectiveBound | 24.c:419-435 | a table of n slots holds at most n distinct keys |
| ResultCaches.RoomIffEmptySlot | 24.c:425-427 | fewer than 10000 keys are stored exactly when some slot is empty, so the count bounds hold |
| ResultCaches.StoreInEmpty | 24.c:425-430 | writing a new key into the first empty probed slot keeps the table invariant and adds exactly that key |
| ResultCaches.StoreInPlace | 24.c:425-430 | rewriting the slot that holds the key keeps the table invariant and updates only that key's cost |
| ResultCaches.Evict | 24.c:434 | on a full table, overwriting the key's home slot keeps the table invariant and replaces exactly the key stored there |
| ResultCaches.AllOccupied | 24.c:423-433 | when no probe meets an empty slot or the key, the table is full and the key is absent |
| ResultCaches.ResultCache.CountBounded | 24.c:427 | the stored count is between 0 and 10000 and names exactly the stored keys |
| ResultCaches.ResultCache.constructor | 24.c:375-387 | a valid cache with no entries |
| ResultCaches.ResultCache.Clear | 24.c:381-386 | every slot is marked empty: no entries and a count of 0 |
| ResultCaches.ResultCache.Get | 24.c:399-417 | a stored key yields its cost, and a key not stored yields -2 |
| ResultCaches.ResultCache.Set | 24.c:419-435 | the key maps to the new cost; with room or the key present, nothing else changes and the count grows only for a new key; on a full table the entry in the key's home slot is the only one evicted |
| ResultCaches.StoreThenLookup | 24.c:399-435 | a lookup right after a store of the same key returns the stored cost, also after the full-table fallback |
| ResultCaches.ClearThenLookup | 24.c:389-417 | after a clear the cache is empty and a lookup returns -2 |
| ResultCaches.ResultCache.Fill | 24.c:425-430 | writing into an empty probed slot or into the key's own slot stores the cost and adjusts the count |
| Routing.InitOk | 24.c:283-286 | the start at cost 0, alone in the queue and with nothing settled, satisfies the search invariant |
| Routing.WalkBound | 24.c:295-341 | every walk from the start to a cell not yet settled weighs at least the cheapest queued cost |
| Routing.CheapestIsOptimal | 24.c:296 | a cheapest popped node for an unsettled cell carries that cell's least walk weight |
| Routing.DropStale | 24.c:301-303 | discarding a popped node dearer than its cell's recorded cost keeps the invariant |
| Routing.TargetAnswered | 24.c:304-307 | a cheapest popped node for the target that is not stale carries the correct answer |
| Routing.StartExpanding | 24.c:296-309 | a popped node that is neither stale nor the target carries its cell's final cost |
| Routing.RelaxKnown | 24.c:319-322 | a lowered tentative cost is still the weight of some walk from the start |
| Routing.RelaxQueue | 24.c:320-322 | recording and pushing a lower cost keeps every queued node sound and every recorded cell queued |
| Routing.RelaxSettled | 24.c:320-322 | a cost is never lowered for a settled cell, so settled cells keep their final cost |
| Routing.RelaxStep | 24.c:319-323 | one successful relaxation keeps the expansion invariant and relaxes that edge |
| Routing.LoweredKeepsDone | 24.c:311-340 | proof step: edges out of a cell that are relaxed stay relaxed when other costs only drop |
| Routing.GroundUpToNext | 24.c:315-325 | proof step: after neighbour i is offered, the first i+1 ground edges are relaxed |
| Routing.AirUpToNext | 24.c:328-339 | proof step: after route i is offered, the first i+1 air edges are relaxed |
| Routing.GroundUpToDone | 24.c:315 | proof step: after all six neighbours, every ground edge out of the cell is relaxed |
| Routing.AirUpToDone | 24.c:328 | proof step: after all live routes, every air edge out of the cell is relaxed |
| Routing.NeighbourEdge | 24.c:311-319 | proof step: an in-grid neighbour of a positive-cost cell is an edge weighted by the cell's cost |
| Routing.RouteEdge | 24.c:329-333 | proof step: a live route of positive cost to an in-grid cell is an edge weighted by the route's cost |
| Routing.DoneEdge | 24.c:311-340 | proof step: once a cell is expanded, every edge out of it is relaxed |
| Routing.FinishExpanding | 24.c:309-340 | an expanded cell can be settled without breaking the invariant |
| Routing.DrainedWalk | 24.c:295 | with the queue empty, every cell a walk from the start reaches is settled |
| Routing.DrainedUnreachable | 24.c:293-350 | when the queue runs dry before the target is popped, the target is unreachable and -1 is correct |
| Routing.SettleShrinks | 24.c:295-341 | settling a new cell decreases the number of unsettled cells, so the loop terminates |
| Routing.Relax | 24.c:319-323 | the offered cost is recorded and pushed when it beats the recorded one; the invariant is kept and the edge is relaxed either way |
| Routing.Improve | 24.c:321-322 | min_costs records the new cost and the queue gains exactly that node |
| Routing.OfferNeighbour | 24.c:316-324 | offering neighbour i keeps the invariant and extends the relaxed ground edges by one |
| Routing.OfferRoute | 24.c:329-339 | offering route i keeps the invariant and extends the relaxed air edges by one |
| Routing.RelaxGround | 24.c:311-326 | every ground edge out of the cell is relaxed and costs only drop |
| Routing.RelaxAir | 24.c:328-340 | every air edge out of the cell is relaxed and costs only drop |
| Routing.PopCheapest | 24.c:296 | a cheapest node is removed and returned, with the size dropping by one |
| Routing.Expand | 24.c:309-340 | after both loops the cell can be settled with the invariant kept |
| Routing.Settle | 24.c:309-340 | the cell is settled with the invariant kept, and the unsettled set shrinks or the same cell is expanded again |
| Routing.Visit | 24.c:296-340 | one iteration either stops with the correct answer or keeps the invariant with a smaller measure |
| Routing.StartSearch | 24.c:265-286 | min_costs is -1 everywhere but 0 at the start, and the queue holds only the start at cost 0 |
| Routing.ShortestPath | 24.c:265-341 | the result is the correct answer: the least walk weight from start to destination, or -1 when none exists |
| HexMaps.EditedCell | 24.c:191-205 | one cell after the radial edit; its contract is carried by EditedCentre, EditedOutside and EditedFades |
| HexMaps.EditedCentre | 24.c:191-198 | the centre cell's cost moves by the full strength v, clamped |
| HexMaps.EditedOutside | 24.c:191-192 | cells at hex distance radius or more are untouched |
| HexMaps.EditedFades | 24.c:191-198 | for v >= 0, a nearer cell gains no less than a farther one unless the nearer is capped at 100 |
| HexMaps.AnswersStore | 24.c:348 | storing a correct answer, whether or not it evicts an entry, keeps every cached cost correct |
| HexMaps.GridOkWellFormed | 24.c:309 | every cell of a grid that keeps the grid invariant has its route count within its five slots |
| HexMaps.FreshGridUniform | 24.c:170-180 | a grid of fresh cells is uniform terrain |
| HexMaps.FreshGrid | 24.c:170-180 | an nRows x nCols grid of fresh cells, which keeps the grid invariant |
| HexMaps.EditGrid | 24.c:189-207 | every cell becomes its radial edit, and the grid invariant (costs in 0..100, routes in the grid and distinct) is kept |
| HexMaps.ToggleGridOk | 24.c:211-250 | toggling a route between two cells of the grid keeps the grid invariant and changes only the start cell |
| HexMaps.AnswersAreCosts | 24.c:260-263 | a cached cost is -1 or more, never the -2 marker, so a lookup reporting -2 found no entry |
| HexMaps.HexMap.Remember | 24.c:348 | storing an answer keeps every cached cost correct and the cache then holds the answer under its key; every other entry keeps its cost, nothing is lost while the table has room, and on a full table only the key in the query's home slot can be evicted |
| HexMaps.StoreKeepsOthers | 24.c:419-435 | storing under one key, with or without one eviction, keeps every other entry's cost and loses no entry but the evicted one |
| HexMaps.HexMap.constructor | 24.c:44-49 | no rows, no columns and an empty cache |
| HexMaps.HexMap.IsValid | 24.c:353-355 | true exactly when row r and column c name a cell of the grid |
| HexMaps.HexMap.InitMap | 24.c:148-181 | the cache is empty, the dimensions are the new ones, and every cell is a fresh cost-1 cell with no routes |
| HexMaps.HexMap.ChangeCost | 24.c:183-209 | fails with nothing changed exactly on an off-grid centre, a radius <= 0 or a strength outside -10..10; otherwise the cache is empty and each cell is its radial edit |
| HexMaps.HexMap.ToggleAirRoute | 24.c:211-250 | fails with nothing changed for an off-grid endpoint; otherwise the cache is empty and the start cell is toggled, with the route-table result as the result |
| HexMaps.FreshTravelCost | 24.c:148-181 | right after `init_map`, `travel_cost` returns hex_dist for two cells of the grid and -1 otherwise, and the map stays valid |
| HexMaps.HexMap.TravelCost | 24.c:252-350 | -1 for an off-grid endpoint and 0 from a cell to itself, both leaving the cache alone; a cached cost when the key is stored; otherwise the search's answer, now stored under the key with the other entries kept as Remember states; every in-grid answer is the correct one |

## Left out

- Memory management is left out: malloc, realloc, free and the `exit(1)`
  paths. This includes the allocation-failure `return -1` of `travel_cost`
  (24.c:266-277) and the releases at 24.c:343-347.
- HexMaps.HexMap.InitMap: a negative dimension is excluded by its
  precondition. In the source it reaches `malloc` with a negative size,
  which exits or leaves a map that `is_valid` never accepts.
- HexMaps.HexMap: the grid is a value (a sequence of rows) that each edit
  reassigns, not the heap-allocated `Hexagon***` updated in place. Nothing
  in the source aliases the cells, so the lost in-place aliasing carries no
  behaviour.
- HexMaps.EditGrid: it holds the nested loops of `change_cost`, and
  HexMaps.FreshGrid those of `init_map`. Each builds the new grid as a
  value, and the map object then stores it.
- HexMaps.HexMap: the cache object always exists. In the source, `cache`
  stays NULL until the first store. Every lookup on a NULL cache returns -2,
  which is what the empty table gives, and clearing a NULL cache does
  nothing, which matches clearing an empty one.
- Hexagons.CostChange: the double-precision `floor(v * fmax(0.0,
  (radius-dist)/radius))` is modelled as the exact floor of the rational
  value. The `fmax` is dropped because the edit only runs for
  dist < radius, where the factor is positive. Floating-point rounding at
  exact multiples is not modelled.
- Hexagons.FreshHexagon: fresh cells have their five unused route slots set
  to (0, 0, 0). The source leaves them uninitialised. They are never read
  before being written.
- ResultCaches.ResultCache.Set: its precondition `cost != Empty` (the -2
  marker) is not demanded by `set_cached_cost`. Its only caller (24.c:348)
  stores either -1 or a path cost of 0 or more, so no call the source makes
  is excluded.
- Integer widths are unbounded, apart from the hash. The `int` cell and
  route costs stay within 0..100 by the invariant. The `long long` path
  costs are bounded by the grid size.
  - ResultCaches.ResultCache.Set: the narrowing of the `long long` answer to
    the `int` cost parameter of `set_cached_cost` is not modelled.
  - ResultCaches.ResultCache.Get: the narrowing of its result to `int`
    (24.c:399) is not modelled, so costs are assumed to fit in 32 bits.
- ResultCaches.Hash: the 32-bit wrap-around of the products, which is signed
  overflow in the source, is modelled via the low 32 bits. The probing
  proofs hold for every hash into the table, so they do not depend on the
  constants.
- MinHeap.PriorityQueue.Grow: `realloc` is modelled as allocating a new
  array and copying the live nodes.
- MinHeap.PriorityQueue.Free: it leaves the queue without a node array. The
  model does not use the queue after `Free`, and neither does the source.
- Routing: the search loops are split into per-iteration methods (Visit,
  Settle, Expand, RelaxGround, RelaxAir, OfferNeighbour, OfferRoute). They
  keep the source's order of checks and updates. `min_costs` is created by
  an array initialiser that fills it with -1, which stands for the
  row-by-row allocation and fill at 24.c:265-281.
- `main` (24.c:69-146), the command reader and the output, is not part of
  this model.
