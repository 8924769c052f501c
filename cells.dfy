/**
 * Grid coordinates and the cell-level vocabulary shared by the floor generator:
 * a cell is the model of Unity's `Vector2Int`, whose `x` indexes the first
 * dimension of the floor matrix and whose `y` indexes the second.
 */
module Cells {

  datatype Cell = Cell(x: int, y: int)

  /** Cell code of a building-footprint cell, the cells that are grouped into buildings. */
  const FOOTPRINT: int := -10

  /** Cell code of a walkable street cell. */
  const WALKABLE: int := 1

  function Abs(n: int): nat
  {
    if n < 0 then -n else n
  }

  /** 4-adjacency: the two cells are one step apart along exactly one axis. */
  predicate Adjacent(a: Cell, b: Cell)
  {
    Abs(a.x - b.x) + Abs(a.y - b.y) == 1
  }

  /**
   * The four neighbours that the flood fill tries, in the order
   * x + 1, x - 1, y + 1, y - 1; they are exactly the adjacent cells.
   */
  function Neighbors(c: Cell): (ns: seq<Cell>)
    ensures |ns| == 4
    ensures forall n :: n in ns <==> Adjacent(c, n)
  {
    [Cell(c.x + 1, c.y), Cell(c.x - 1, c.y), Cell(c.x, c.y + 1), Cell(c.x, c.y - 1)]
  }

  /** Strict row-major order: the order in which nested loops over x then y meet the cells. */
  predicate RowMajorBefore(a: Cell, b: Cell)
  {
    a.x < b.x || (a.x == b.x && a.y < b.y)
  }

  predicate InBounds(g: array2<int>, c: Cell)
  {
    0 <= c.x < g.Length0 && 0 <= c.y < g.Length1
  }

  /** The cell lies inside the grid and carries the given code. */
  predicate HasCode(g: array2<int>, c: Cell, code: int)
    reads g
  {
    InBounds(g, c) && g[c.x, c.y] == code
  }

  predicate IsFootprint(g: array2<int>, c: Cell)
    reads g
  {
    HasCode(g, c, FOOTPRINT)
  }

  /** The footprint cells of the grid, as a set. */
  ghost function FootprintOf(g: array2<int>): set<Cell>
    reads g
  {
    set i, j | 0 <= i < g.Length0 && 0 <= j < g.Length1 && g[i, j] == FOOTPRINT :: Cell(i, j)
  }

  lemma FootprintCell(g: array2<int>, c: Cell)
    requires InBounds(g, c)
    ensures c in FootprintOf(g) <==> g[c.x, c.y] == FOOTPRINT
  {
    assert c == Cell(c.x, c.y);
  }

  lemma FootprintInBounds(g: array2<int>)
    ensures forall c :: c in FootprintOf(g) ==> InBounds(g, c)
  {
  }

  lemma FootprintOfExact(g: array2<int>)
    ensures forall c :: c in FootprintOf(g) <==> IsFootprint(g, c)
  {
    forall c | IsFootprint(g, c) ensures c in FootprintOf(g) {
      assert c == Cell(c.x, c.y);
    }
  }
}
