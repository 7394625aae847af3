/** Bytes and the 10x10 byte maps the game keeps per board (`uint8_t m[10][10]`,
    indexed `m[x][y]`), together with a count of the non-zero entries. */
module Cells {

  /** `uint8_t` */
  type Byte = n: int | 0 <= n < 256

  /** The side of every board and of every grid the program uses. */
  const SIDE: nat := 10

  predicate IsSquare<T>(g: seq<seq<T>>)
  {
    |g| == SIDE && forall x :: 0 <= x < SIDE ==> |g[x]| == SIDE
  }

  /** A 10x10 byte map, `m[x][y]` with x the column and y the row. */
  type Map10 = g: seq<seq<Byte>> | IsSquare(g) witness Filled(0)

  /** The map with every one of its 100 entries equal to `v`. */
  function Filled(v: Byte): (m: seq<seq<Byte>>)
    ensures IsSquare(m)
    ensures forall x, y :: 0 <= x < SIDE && 0 <= y < SIDE ==> m[x][y] == v
  {
    seq(SIDE, _ => seq(SIDE, _ => v))
  }

  /** `m[x][y] := v`, everything else unchanged. */
  function Set(m: Map10, x: nat, y: nat, v: Byte): (m': Map10)
    requires x < SIDE && y < SIDE
    ensures m'[x][y] == v
    ensures forall i, j :: 0 <= i < SIDE && 0 <= j < SIDE && (i != x || j != y) ==> m'[i][j] == m[i][j]
  {
    var row: seq<Byte> := m[x][y := v];
    m[x := row]
  }

  /** Number of non-zero entries among `m[0][y] .. m[cx-1][y]`. */
  function CountInRow(m: Map10, y: nat, cx: nat): (c: nat)
    requires y < SIDE && cx <= SIDE
    ensures c <= cx
  {
    if cx == 0 then 0
    else CountInRow(m, y, cx - 1) + (if m[cx - 1][y] != 0 then 1 else 0)
  }

  /** Number of non-zero entries in the rows `0 .. ry-1`. */
  function CountInRows(m: Map10, ry: nat): (c: nat)
    requires ry <= SIDE
    ensures c <= SIDE * ry
  {
    if ry == 0 then 0
    else CountInRows(m, ry - 1) + CountInRow(m, ry - 1, SIDE)
  }

  /** Number of non-zero entries of the whole map. */
  function CountSet(m: Map10): nat
  {
    CountInRows(m, SIDE)
  }

  /** Maps are equal when all their entries are. */
  lemma MapsEqual(m: Map10, m': Map10)
    requires forall x, y :: 0 <= x < SIDE && 0 <= y < SIDE ==> m[x][y] == m'[x][y]
    ensures m == m'
  {
    forall x | 0 <= x < SIDE
      ensures m[x] == m'[x]
    {
      assert forall y :: 0 <= y < SIDE ==> m[x][y] == m'[x][y];
    }
  }

  /** A map with exactly one non-zero entry counts one. */
  lemma {:induction false} CountInRowOneHot(m: Map10, x0: nat, y0: nat, y: nat, cx: nat)
    requires x0 < SIDE && y0 < SIDE && y < SIDE && cx <= SIDE
    requires forall i, j :: 0 <= i < SIDE && 0 <= j < SIDE ==> (m[i][j] != 0 <==> i == x0 && j == y0)
    ensures CountInRow(m, y, cx) == if y == y0 && x0 < cx then 1 else 0
  {
    if cx > 0 {
      CountInRowOneHot(m, x0, y0, y, cx - 1);
    }
  }

  lemma {:induction false} CountInRowsOneHot(m: Map10, x0: nat, y0: nat, ry: nat)
    requires x0 < SIDE && y0 < SIDE && ry <= SIDE
    requires forall i, j :: 0 <= i < SIDE && 0 <= j < SIDE ==> (m[i][j] != 0 <==> i == x0 && j == y0)
    ensures CountInRows(m, ry) == if y0 < ry then 1 else 0
  {
    if ry > 0 {
      CountInRowsOneHot(m, x0, y0, ry - 1);
      CountInRowOneHot(m, x0, y0, ry - 1, SIDE);
    }
  }

  lemma CountSetOneHot(m: Map10, x0: nat, y0: nat)
    requires x0 < SIDE && y0 < SIDE
    requires forall i, j :: 0 <= i < SIDE && 0 <= j < SIDE ==> (m[i][j] != 0 <==> i == x0 && j == y0)
    ensures CountSet(m) == 1
  {
    CountInRowsOneHot(m, x0, y0, SIDE);
  }
}
