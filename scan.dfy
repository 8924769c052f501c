/**
 * The cells of a grid carrying a given code, listed in the row-major order
 * of nested loops over x and then y.
 */
module Scan {
  import opened Cells

  /** The cells `(x, 0)`, ..., `(x, z - 1)` of row `x` that carry `code`, in order. */
  ghost function RowCells(g: array2<int>, code: int, x: int, z: nat): seq<Cell>
    requires 0 <= x < g.Length0 && z <= g.Length1
    reads g
    decreases z
  {
    if z == 0 then []
    else RowCells(g, code, x, z - 1) + (if g[x, z - 1] == code then [Cell(x, z - 1)] else [])
  }

  /** The cells of rows `0` to `x - 1` that carry `code`, in row-major order. */
  ghost function GridCells(g: array2<int>, code: int, x: nat): seq<Cell>
    requires x <= g.Length0
    reads g
    decreases x
  {
    if x == 0 then [] else GridCells(g, code, x - 1) + RowCells(g, code, x - 1, g.Length1)
  }

  /** All the cells of the grid that carry `code`, in row-major order. */
  ghost function CellsWithCode(g: array2<int>, code: int): seq<Cell>
    reads g
  {
    GridCells(g, code, g.Length0)
  }

  ghost predicate RowMajorSorted(s: seq<Cell>)
  {
    forall i, j :: 0 <= i < j < |s| ==> RowMajorBefore(s[i], s[j])
  }

  lemma {:induction false} RowCellsExact(g: array2<int>, code: int, x: int, z: nat)
    requires 0 <= x < g.Length0 && z <= g.Length1
    ensures forall c :: c in RowCells(g, code, x, z) <==> c.x == x && 0 <= c.y < z && g[x, c.y] == code
    ensures RowMajorSorted(RowCells(g, code, x, z))
    decreases z
  {
    if z > 0 {
      RowCellsExact(g, code, x, z - 1);
    }
  }

  lemma {:induction false} GridCellsExact(g: array2<int>, code: int, x: nat)
    requires x <= g.Length0
    ensures forall c :: c in GridCells(g, code, x) <==> c.x < x && HasCode(g, c, code)
    ensures RowMajorSorted(GridCells(g, code, x))
    decreases x
  {
    if x > 0 {
      GridCellsExact(g, code, x - 1);
      RowCellsExact(g, code, x - 1, g.Length1);
      var a, b := GridCells(g, code, x - 1), RowCells(g, code, x - 1, g.Length1);
      forall i, j | 0 <= i < j < |a + b| ensures RowMajorBefore((a + b)[i], (a + b)[j]) {
        if j < |a| {
          assert (a + b)[i] == a[i] && (a + b)[j] == a[j];
        } else if i >= |a| {
          assert (a + b)[i] == b[i - |a|] && (a + b)[j] == b[j - |a|];
        } else {
          assert (a + b)[i] == a[i] && a[i] in a;
          assert (a + b)[j] == b[j - |a|] && b[j - |a|] in b;
        }
      }
    }
  }

  /**
   * CellsWithCode lists exactly the in-bounds cells carrying `code`, each
   * once, in strictly increasing row-major order.
   */
  lemma CellsWithCodeExact(g: array2<int>, code: int)
    ensures forall c :: c in CellsWithCode(g, code) <==> HasCode(g, c, code)
    ensures RowMajorSorted(CellsWithCode(g, code))
  {
    GridCellsExact(g, code, g.Length0);
  }
}
