/**
 * Hex geometry of the terrain: odd-r offset coordinates (x = column, y = row,
 * odd rows shifted right), their cube equivalents, the cube metric, and the two
 * parity-selected neighbour tables the router walks.
 */
module Geometry {

  /** Cube coordinates; every value produced by OffsetToCube lies on the plane q + r + s = 0. */
  datatype Cube = Cube(q: int, r: int, s: int)

  function Abs(n: int): nat {
    if n < 0 then -n else n
  }

  /**
   * odd-r offset to cube. The source writes `row & 1`; on two's complement that
   * is the Euclidean remainder `row % 2`, and `row - row % 2` is even, so the
   * source's truncating division by 2 is exact and agrees with Dafny's.
   */
  function OffsetToCube(col: int, row: int): (c: Cube)
    ensures c.q + c.r + c.s == 0
    ensures CubeToOffset(c) == (col, row)
  {
    var q := col - (row - row % 2) / 2;
    Cube(q, row, -q - row)
  }

  /** The inverse conversion; the source does not need it, the round trip above pins OffsetToCube down. */
  function CubeToOffset(c: Cube): (int, int) {
    (c.q + (c.r - c.r % 2) / 2, c.r)
  }

  /** The sum of the three coordinate gaps is even on the cube plane, so halving it is exact. */
  function CubeDistance(a: Cube, b: Cube): (d: nat)
    requires a.q + a.r + a.s == 0 && b.q + b.r + b.s == 0
    ensures 2 * d == Abs(a.q - b.q) + Abs(a.r - b.r) + Abs(a.s - b.s)
  {
    (Abs(a.q - b.q) + Abs(a.r - b.r) + Abs(a.s - b.s)) / 2
  }

  function HexDist(x1: int, y1: int, x2: int, y2: int): nat {
    CubeDistance(OffsetToCube(x1, y1), OffsetToCube(x2, y2))
  }

  // The neighbour tables of the router: row and column deltas for an even row
  // and for an odd row, in the order the router visits them.
  const EvenRowDeltaRow: seq<int> := [0, -1, -1, 0, 1, 1]
  const EvenRowDeltaCol: seq<int> := [1, 0, -1, -1, -1, 0]
  const OddRowDeltaRow: seq<int> := [0, -1, -1, 0, 1, 1]
  const OddRowDeltaCol: seq<int> := [1, 1, 0, -1, 0, 1]

  /** The row delta of the i-th neighbour of a cell in row y (the source picks the odd table when y % 2 != 0). */
  function DeltaRow(y: int, i: int): int
    requires 0 <= i < 6
  {
    if y % 2 != 0 then OddRowDeltaRow[i] else EvenRowDeltaRow[i]
  }

  function DeltaCol(y: int, i: int): int
    requires 0 <= i < 6
  {
    if y % 2 != 0 then OddRowDeltaCol[i] else EvenRowDeltaCol[i]
  }

  lemma HexDistSymmetric(x1: int, y1: int, x2: int, y2: int)
    ensures HexDist(x1, y1, x2, y2) == HexDist(x2, y2, x1, y1)
  {
  }

  lemma HexDistZeroIff(x1: int, y1: int, x2: int, y2: int)
    ensures HexDist(x1, y1, x2, y2) == 0 <==> x1 == x2 && y1 == y2
  {
    var a, b := OffsetToCube(x1, y1), OffsetToCube(x2, y2);
    if HexDist(x1, y1, x2, y2) == 0 {
      assert a == b;
      assert CubeToOffset(a) == CubeToOffset(b);
    }
  }

  /** Every entry of the parity-selected table is one hex step away. */
  lemma NeighbourAtDistanceOne(x: int, y: int, i: int, x2: int, y2: int)
    requires 0 <= i < 6 && x2 == x + DeltaCol(y, i) && y2 == y + DeltaRow(y, i)
    ensures HexDist(x, y, x2, y2) == 1
  {
    var m := CubeQ(x, y);
    var m2 := CubeQ(x2, y2);
    if y % 2 != 0 {
      assert m2 == (if y2 == y + 1 then m + 1 else m);
    } else {
      assert m2 == (if y2 == y - 1 then m - 1 else m);
    }
  }

  /** Conversely, every cell one hex step away is in the table of the cell's row parity. */
  lemma DistanceOneIsNeighbour(x: int, y: int, x2: int, y2: int) returns (i: int)
    requires HexDist(x, y, x2, y2) == 1
    ensures 0 <= i < 6 && x2 == x + DeltaCol(y, i) && y2 == y + DeltaRow(y, i)
  {
    var a, b := OffsetToCube(x, y), OffsetToCube(x2, y2);
    var dq, dr := b.q - a.q, b.r - a.r;
    assert Abs(dq) + Abs(dr) + Abs(-dq - dr) == 2;
    assert y2 == y + dr;
    var odd := y % 2 != 0;
    if odd {
      assert (y - 1) % 2 == 0 && (y + 1) % 2 == 0;
    } else {
      assert (y - 1) % 2 == 1 && (y + 1) % 2 == 1;
    }
    if dr == 0 {
      i := if dq == 1 then 0 else 3;
    } else if dr == -1 {
      i := if dq == 1 then 1 else 2;
    } else {
      assert dr == 1;
      i := if dq == 0 then 5 else 4;
    }
  }

  lemma CubeTriangle(a: Cube, b: Cube, c: Cube)
    requires a.q + a.r + a.s == 0 && b.q + b.r + b.s == 0 && c.q + c.r + c.s == 0
    ensures CubeDistance(a, c) <= CubeDistance(a, b) + CubeDistance(b, c)
  {
    var ab, bc, ac := CubeDistance(a, b), CubeDistance(b, c), CubeDistance(a, c);
    assert 2 * ac <= 2 * ab + 2 * bc;
  }

  /** The hex metric obeys the triangle inequality. */
  lemma HexDistTriangle(x1: int, y1: int, x2: int, y2: int, x3: int, y3: int)
    ensures HexDist(x1, y1, x3, y3) <= HexDist(x1, y1, x2, y2) + HexDist(x2, y2, x3, y3)
  {
    CubeTriangle(OffsetToCube(x1, y1), OffsetToCube(x2, y2), OffsetToCube(x3, y3));
  }

  /** The cube q coordinate of column x in row y, with the row's half written out. */
  lemma CubeQ(x: int, y: int) returns (m: int)
    ensures y == 2 * m + y % 2 && OffsetToCube(x, y) == Cube(x - m, y, m - x - y)
  {
    m := (y - y % 2) / 2;
  }

  /**
   * A step from b to an adjacent cube c that brings it one hex nearer to a:
   * along a row the step heads towards a; between rows it heads towards a's
   * row and does not move away from a along the q or the s axis.
   */
  lemma CubeNearer(a: Cube, b: Cube, c: Cube)
    requires a.q + a.r + a.s == 0 && b.q + b.r + b.s == 0 && c.q + c.r + c.s == 0
    requires var eq, er := c.q - b.q, c.r - b.r;
      (eq, er) in {(1, 0), (-1, 0), (0, -1), (1, -1), (-1, 1), (0, 1)}
    requires var eq, er, dq, dr := c.q - b.q, c.r - b.r, b.q - a.q, b.r - a.r;
      if er == 0 then dr == 0 && dq * eq < 0
      else if er == -1 then dr > 0 && (if eq == 1 then dq < 0 else dq > -dr)
      else dr < 0 && (if eq == -1 then dq > 0 else dq < -dr)
    ensures CubeDistance(a, c) + 1 == CubeDistance(a, b)
    ensures CubeDistance(b, c) == 1 && CubeDistance(c, b) == 1
  {
    CubeAdjacent(b, c);
  }

  lemma CubeAdjacent(b: Cube, c: Cube)
    requires b.q + b.r + b.s == 0 && c.q + c.r + c.s == 0
    requires (c.q - b.q, c.r - b.r) in {(1, 0), (-1, 0), (0, -1), (1, -1), (-1, 1), (0, 1)}
    ensures CubeDistance(b, c) == 1 && CubeDistance(c, b) == 1
  {
  }

  /** From (xt, yt), the neighbour along its row towards (xs, ys) in that row. */
  lemma StepAlong(xs: int, ys: int, xt: int, yt: int) returns (i: int, x2: int, y2: int)
    requires xs != xt && ys == yt
    ensures 0 <= i < 6 && x2 == xt + DeltaCol(yt, i) && y2 == yt + DeltaRow(yt, i)
    ensures (xs <= x2 <= xt || xt <= x2 <= xs) && y2 == yt
    ensures HexDist(xs, ys, x2, y2) + 1 == HexDist(xs, ys, xt, yt)
    ensures HexDist(xt, yt, x2, y2) == 1 && HexDist(x2, y2, xt, yt) == 1
  {
    i := if xs > xt then 0 else 3;
    x2, y2 := xt + DeltaCol(yt, i), yt + DeltaRow(yt, i);
    var ms := CubeQ(xs, ys);
    var mt := CubeQ(xt, yt);
    var m2 := CubeQ(x2, y2);
    CubeNearer(OffsetToCube(xs, ys), OffsetToCube(xt, yt), OffsetToCube(x2, y2));
  }

  /** From (xt, yt), the neighbour one row up whose column heads towards (xs, ys) above it. */
  lemma StepUp(xs: int, ys: int, xt: int, yt: int) returns (i: int, x2: int, y2: int)
    requires ys < yt
    ensures 0 <= i < 6 && x2 == xt + DeltaCol(yt, i) && y2 == yt + DeltaRow(yt, i)
    ensures (xs <= x2 <= xt || xt <= x2 <= xs) && ys <= y2 < yt
    ensures HexDist(xs, ys, x2, y2) + 1 == HexDist(xs, ys, xt, yt)
    ensures HexDist(xt, yt, x2, y2) == 1 && HexDist(x2, y2, xt, yt) == 1
  {
    if yt % 2 != 0 {
      i := if xs > xt then 1 else 2;
    } else {
      i := if xs < xt then 2 else 1;
    }
    x2, y2 := xt + DeltaCol(yt, i), yt + DeltaRow(yt, i);
    var ms := CubeQ(xs, ys);
    var mt := CubeQ(xt, yt);
    var m2 := CubeQ(x2, y2);
    assert m2 == (if yt % 2 != 0 then mt else mt - 1);
    CubeNearer(OffsetToCube(xs, ys), OffsetToCube(xt, yt), OffsetToCube(x2, y2));
  }

  /** From (xt, yt), the neighbour one row down whose column heads towards (xs, ys) below it. */
  lemma StepDown(xs: int, ys: int, xt: int, yt: int) returns (i: int, x2: int, y2: int)
    requires ys > yt
    ensures 0 <= i < 6 && x2 == xt + DeltaCol(yt, i) && y2 == yt + DeltaRow(yt, i)
    ensures (xs <= x2 <= xt || xt <= x2 <= xs) && yt < y2 <= ys
    ensures HexDist(xs, ys, x2, y2) + 1 == HexDist(xs, ys, xt, yt)
    ensures HexDist(xt, yt, x2, y2) == 1 && HexDist(x2, y2, xt, yt) == 1
  {
    if yt % 2 != 0 {
      i := if xs > xt then 5 else 4;
    } else {
      i := if xs < xt then 4 else 5;
    }
    x2, y2 := xt + DeltaCol(yt, i), yt + DeltaRow(yt, i);
    var ms := CubeQ(xs, ys);
    var mt := CubeQ(xt, yt);
    var m2 := CubeQ(x2, y2);
    assert m2 == (if yt % 2 != 0 then mt + 1 else mt);
    CubeNearer(OffsetToCube(xs, ys), OffsetToCube(xt, yt), OffsetToCube(x2, y2));
  }

  /**
   * Every cell other than (xs, ys) has a table neighbour one hex nearer to
   * (xs, ys), inside the box spanned by the two cells.
   */
  lemma StepTowards(xs: int, ys: int, xt: int, yt: int) returns (i: int, x2: int, y2: int)
    requires xs != xt || ys != yt
    ensures 0 <= i < 6 && x2 == xt + DeltaCol(yt, i) && y2 == yt + DeltaRow(yt, i)
    ensures (xs <= x2 <= xt || xt <= x2 <= xs) && (ys <= y2 <= yt || yt <= y2 <= ys)
    ensures HexDist(xs, ys, x2, y2) + 1 == HexDist(xs, ys, xt, yt)
    ensures HexDist(xt, yt, x2, y2) == 1 && HexDist(x2, y2, xt, yt) == 1
  {
    if ys == yt {
      i, x2, y2 := StepAlong(xs, ys, xt, yt);
    } else if ys < yt {
      i, x2, y2 := StepUp(xs, ys, xt, yt);
    } else {
      i, x2, y2 := StepDown(xs, ys, xt, yt);
    }
  }
}
