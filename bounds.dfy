/**
 * Bounding boxes of building regions and the placement the floor generator
 * derives from them, in whole cells (the world-space scaling by the cell size
 * is not part of the model).
 */
module Bounds {
  import opened Cells

  /** The range of C#'s `int`, whose extremes PlaceBuilding uses as starting values. */
  const INT_MAX: int := 0x7FFF_FFFF
  const INT_MIN: int := -0x8000_0000

  function Min(a: int, b: int): int
  {
    if a < b then a else b
  }

  function Max(a: int, b: int): int
  {
    if a < b then b else a
  }

  predicate IsInt32(n: int)
  {
    INT_MIN <= n <= INT_MAX
  }

  datatype Box = Box(minX: int, minZ: int, maxX: int, maxZ: int)

  /** Every tile lies inside the box. */
  ghost predicate Encloses(b: Box, tiles: seq<Cell>)
  {
    forall t :: t in tiles ==> b.minX <= t.x <= b.maxX && b.minZ <= t.y <= b.maxZ
  }

  /** The box encloses the tiles and each of its four bounds is attained by some tile. */
  ghost predicate Tight(b: Box, tiles: seq<Cell>)
  {
    && Encloses(b, tiles)
    && (exists t :: t in tiles && t.x == b.minX)
    && (exists t :: t in tiles && t.x == b.maxX)
    && (exists t :: t in tiles && t.y == b.minZ)
    && (exists t :: t in tiles && t.y == b.maxZ)
  }

  /** A list of tiles has at most one tight box. */
  lemma TightUnique(b1: Box, b2: Box, tiles: seq<Cell>)
    requires Tight(b1, tiles) && Tight(b2, tiles)
    ensures b1 == b2
  {
  }

  /** Cells of a grid no larger than C#'s `int` allows have `int` coordinates. */
  lemma GridCellsAreInt32(g: array2<int>, tiles: seq<Cell>)
    requires g.Length0 <= INT_MAX && g.Length1 <= INT_MAX
    requires forall t :: t in tiles ==> InBounds(g, t)
    ensures forall t :: t in tiles ==> IsInt32(t.x) && IsInt32(t.y)
  {
  }

  /** The tight box of tiles inside a grid lies inside the grid, and is at most as large as it. */
  lemma TightBoxInGrid(g: array2<int>, b: Box, tiles: seq<Cell>)
    requires Tight(b, tiles)
    requires forall t :: t in tiles ==> InBounds(g, t)
    ensures 0 <= b.minX <= b.maxX < g.Length0 && 0 <= b.minZ <= b.maxZ < g.Length1
  {
    var t :| t in tiles && t.x == b.minX;
  }

  /**
   * The doubled centre minX + maxX + 1 is a C# `int` sum, which wraps once
   * minX + maxX reaches int.MaxValue. Grids of at most 2^30 rows and columns
   * keep it, as well as the width and depth, inside the range of `int`.
   */
  lemma {:induction false} PlacementFitsInt32(g: array2<int>, b: Box, tiles: seq<Cell>)
    requires g.Length0 <= 0x4000_0000 && g.Length1 <= 0x4000_0000
    requires Tight(b, tiles)
    requires forall t :: t in tiles ==> InBounds(g, t)
    ensures IsInt32(b.minX + b.maxX + 1) && IsInt32(b.minZ + b.maxZ + 1)
    ensures IsInt32(b.maxX - b.minX + 1) && IsInt32(b.maxZ - b.minZ + 1)
  {
    TightBoxInGrid(g, b, tiles);
  }

  /**
   * A building placement in cell units: its width and depth in cells and its
   * centre, carried doubled so that it stays an integer.
   */
  datatype Placement = Placement(widthCells: int, depthCells: int, centreX2: int, centreZ2: int)

  /**
   * The placement of a non-empty box: the building spans the cells minX to
   * maxX (the world interval from minX to maxX + 1), at least one cell wide,
   * with its centre half a width from either edge; likewise along z.
   */
  function PlanPlacement(b: Box): (p: Placement)
    requires b.minX <= b.maxX && b.minZ <= b.maxZ
    ensures p.widthCells >= 1 && p.depthCells >= 1
    ensures p.centreX2 == 2 * b.minX + p.widthCells && p.centreX2 + p.widthCells == 2 * (b.maxX + 1)
    ensures p.centreZ2 == 2 * b.minZ + p.depthCells && p.centreZ2 + p.depthCells == 2 * (b.maxZ + 1)
  {
    Placement(b.maxX - b.minX + 1, b.maxZ - b.minZ + 1, b.minX + b.maxX + 1, b.minZ + b.maxZ + 1)
  }
}
