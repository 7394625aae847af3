/** `bs_grid_check`: which of the 100 on-screen board cells a rectangle
    touches. Cell `(x, y)` is the 32x32 square whose top-left corner is
    `(offset_x + 33 + 33x, offset_y + 33 + 33y)`; neighbouring cells are
    separated by a one-pixel gap. */
module GridCheck {

  import opened Cells
  import opened Geometry

  /** `uint32_t`, and the modulus its additions wrap around. */
  const U32_MODULUS: int := 0x1_0000_0000
  type U32 = n: int | 0 <= n < 0x1_0000_0000

  const CELL_PITCH: nat := 33
  const CELL_SIZE: real := 32.0

  /** `offset + 33 + 33 * i`, computed in `uint32_t` arithmetic. */
  function CellOrigin(offset: U32, i: nat): U32
  {
    (offset + CELL_PITCH + CELL_PITCH * i) % U32_MODULUS
  }

  /** The on-screen square of cell `(x, y)`. */
  function CellRect(ox: U32, oy: U32, x: nat, y: nat): Rect
  {
    Rect(CellOrigin(ox, x) as real, CellOrigin(oy, y) as real, CELL_SIZE, CELL_SIZE)
  }

  /** The test the grid check applies to one cell: the cell overlaps the
      rectangle, or contains the rectangle's top-left corner. */
  predicate CellTouched(rect: Rect, ox: U32, oy: U32, x: nat, y: nat)
  {
    RectOverlap(CellRect(ox, oy, x, y), rect) || PointInRect(rect.TopLeft(), CellRect(ox, oy, x, y))
  }

  /** The map marking every touched cell with 1 and every other cell with 0. */
  function TouchedMap(rect: Rect, ox: U32, oy: U32): (m: Map10)
    ensures forall x, y :: 0 <= x < SIDE && 0 <= y < SIDE ==>
              (m[x][y] == 1 <==> CellTouched(rect, ox, oy, x, y)) && (m[x][y] == 0 <==> !CellTouched(rect, ox, oy, x, y))
  {
    seq(SIDE, x requires 0 <= x => seq(SIDE, y requires 0 <= y => if CellTouched(rect, ox, oy, x, y) then 1 else 0))
  }

  /** `grid_check_return_t` */
  datatype GridCheckResult = GridCheckResult(grid: Map10, total: Byte)

  /** `bs_grid_check`: rows outer, columns inner, as in the program. */
  method GridCheck(rect: Rect, ox: U32, oy: U32) returns (r: GridCheckResult)
    ensures forall x, y :: 0 <= x < SIDE && 0 <= y < SIDE ==>
              (r.grid[x][y] == 1 <==> CellTouched(rect, ox, oy, x, y)) && (r.grid[x][y] == 0 <==> !CellTouched(rect, ox, oy, x, y))
    ensures r.grid == TouchedMap(rect, ox, oy)
    ensures r.total == CountSet(r.grid) <= 100
  {
    ghost var t := TouchedMap(rect, ox, oy);
    var grid: Map10 := Filled(0);
    var total: Byte := 0;
    var y := 0;
    while y < SIDE
      invariant 0 <= y <= SIDE
      invariant forall i, j :: 0 <= i < SIDE && 0 <= j < SIDE ==> grid[i][j] == if j < y then t[i][j] else 0
      invariant total == CountInRows(t, y)
    {
      var x := 0;
      while x < SIDE
        invariant 0 <= x <= SIDE
        invariant forall i, j :: 0 <= i < SIDE && 0 <= j < SIDE ==>
                    grid[i][j] == if j < y || (j == y && i < x) then t[i][j] else 0
        invariant total == CountInRows(t, y) + CountInRow(t, y, x)
      {
        var a := CellRect(ox, oy, x, y);
        if RectOverlap(a, rect) {
          grid := Set(grid, x, y, 1);
          total := total + 1;
        } else if PointInRect(rect.TopLeft(), a) {
          grid := Set(grid, x, y, 1);
          total := total + 1;
        }
        x := x + 1;
      }
      y := y + 1;
    }
    MapsEqual(grid, t);
    r := GridCheckResult(grid, total);
  }

  /** For a rectangle of non-negative size the corner test never adds a
      cell: touching is the same as overlapping. */
  lemma TouchedIsOverlapForNonNegative(rect: Rect, ox: U32, oy: U32, x: nat, y: nat)
    requires rect.NonNegative()
    ensures CellTouched(rect, ox, oy, x, y) <==> RectOverlap(CellRect(ox, oy, x, y), rect)
  {
    if PointInRect(rect.TopLeft(), CellRect(ox, oy, x, y)) {
      CornerInRectImpliesOverlap(CellRect(ox, oy, x, y), rect);
    }
  }

  /** Because of the one-pixel gap, a rectangle lying exactly on a cell
      (when the offsets are small enough not to wrap) touches that cell and
      no other, so the check reports a total of one. */
  lemma CellRectTouchesOnlyItself(ox: U32, oy: U32, x0: nat, y0: nat)
    requires x0 < SIDE && y0 < SIDE
    requires ox + CELL_PITCH * (SIDE + 1) < U32_MODULUS && oy + CELL_PITCH * (SIDE + 1) < U32_MODULUS
    ensures forall x, y :: 0 <= x < SIDE && 0 <= y < SIDE ==>
              (CellTouched(CellRect(ox, oy, x0, y0), ox, oy, x, y) <==> x == x0 && y == y0)
    ensures CountSet(TouchedMap(CellRect(ox, oy, x0, y0), ox, oy)) == 1
  {
    var rect := CellRect(ox, oy, x0, y0);
    forall x, y | 0 <= x < SIDE && 0 <= y < SIDE
      ensures CellTouched(rect, ox, oy, x, y) <==> x == x0 && y == y0
    {
      NoWrap(ox, x);
      NoWrap(ox, x0);
      NoWrap(oy, y);
      NoWrap(oy, y0);
      TouchedIsOverlapForNonNegative(rect, ox, oy, x, y);
    }
    CountSetOneHot(TouchedMap(rect, ox, oy), x0, y0);
  }

  lemma NoWrap(offset: U32, i: nat)
    requires i < SIDE
    requires offset + CELL_PITCH * (SIDE + 1) < U32_MODULUS
    ensures CellOrigin(offset, i) == offset + CELL_PITCH + CELL_PITCH * i
  {
  }
}
