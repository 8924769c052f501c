/**
 * The floor generator: it keeps the current floor matrix, the list of
 * walkable tiles it has collected and whether the walker exists; it lists
 * the walkable cells of the floor, groups the footprint cells into buildings
 * by breadth-first flood fill, and decides between spawning and moving the
 * walker.
 */
module FloorGen {
  import opened Wrappers
  import opened Cells
  import opened Tiles
  import opened Regions
  import opened Bounds
  import opened Scan
  import opened FloodFill

  /** What SpawnWalker asks of the engine: create the walker at a cell, or move it there. */
  datatype WalkerCommand = Spawn(at: Cell) | MoveTo(target: Cell)

  /** One building: the bounding box of its region and the placement derived from it. */
  datatype Building = Building(box: Box, placement: Placement)

  /** Building k has the tight box of region k and the placement planned from that box. */
  ghost predicate Placed(regions: seq<seq<Cell>>, buildings: seq<Building>)
  {
    && |regions| == |buildings|
    && forall k :: 0 <= k < |regions| ==>
      Tight(buildings[k].box, regions[k]) && buildings[k].placement == PlanPlacement(buildings[k].box)
  }

  lemma PlacedAppend(regions: seq<seq<Cell>>, buildings: seq<Building>, r: seq<Cell>, b: Building)
    requires Placed(regions, buildings)
    requires Tight(b.box, r) && b.placement == PlanPlacement(b.box)
    ensures Placed(regions + [r], buildings + [b])
  {
    var regions', buildings' := regions + [r], buildings + [b];
    forall k | 0 <= k < |regions'|
      ensures Tight(buildings'[k].box, regions'[k]) && buildings'[k].placement == PlanPlacement(buildings'[k].box)
    {
      if k < |regions| { assert regions'[k] == regions[k] && buildings'[k] == buildings[k]; }
    }
  }

  /** The cells GetValidNeighbors tries: up, down, left and right of `c`. */
  function Candidates(c: Cell): (cs: seq<Cell>)
    ensures |cs| == 4
    ensures forall n :: n in cs <==> Adjacent(c, n)
  {
    [Cell(c.x, c.y + 1), Cell(c.x, c.y - 1), Cell(c.x - 1, c.y), Cell(c.x + 1, c.y)]
  }

  /** The walkable cells among `cs`, in the order of `cs`. */
  ghost function WalkableAmong(g: array2<int>, cs: seq<Cell>): seq<Cell>
    reads g
    decreases |cs|
  {
    if cs == [] then []
    else
      var last := cs[|cs| - 1];
      WalkableAmong(g, cs[..|cs| - 1]) + (if HasCode(g, last, WALKABLE) then [last] else [])
  }

  lemma {:induction false} WalkableAmongExact(g: array2<int>, cs: seq<Cell>)
    ensures |WalkableAmong(g, cs)| <= |cs|
    ensures forall n :: n in WalkableAmong(g, cs) <==> n in cs && HasCode(g, n, WALKABLE)
    decreases |cs|
  {
    if cs != [] {
      var init := cs[..|cs| - 1];
      WalkableAmongExact(g, init);
      assert cs == init + [cs[|cs| - 1]];
    }
  }

  /** The command one SpawnWalker call issues, given whether the walker exists. */
  function WalkerStep(present: bool, position: Cell): WalkerCommand
  {
    if present then MoveTo(position) else Spawn(position)
  }

  /**
   * The commands of successive SpawnWalker calls at `positions`: each call
   * issues WalkerStep of the presence flag and leaves the walker present
   * (SpawnWalker's contract), as FloorGenerator.SpawnWalkerAll shows.
   */
  function WalkerCommands(present: bool, positions: seq<Cell>): seq<WalkerCommand>
    decreases |positions|
  {
    if positions == [] then []
    else [WalkerStep(present, positions[0])] + WalkerCommands(true, positions[1..])
  }

  /** Once the walker exists, every call only moves it. */
  lemma {:induction false} PresentWalkerOnlyMoves(positions: seq<Cell>)
    ensures |WalkerCommands(true, positions)| == |positions|
    ensures forall k :: 0 <= k < |positions| ==> WalkerCommands(true, positions)[k] == MoveTo(positions[k])
    decreases |positions|
  {
    if positions != [] {
      PresentWalkerOnlyMoves(positions[1..]);
    }
  }

  /**
   * Starting without a walker, the first call spawns it at the first position
   * and every later call moves it: exactly one walker is ever created.
   */
  lemma OnlyFirstCallSpawns(positions: seq<Cell>)
    ensures |WalkerCommands(false, positions)| == |positions|
    ensures forall k :: 0 <= k < |positions| ==>
      WalkerCommands(false, positions)[k] == if k == 0 then Spawn(positions[0]) else MoveTo(positions[k])
  {
    if positions != [] {
      PresentWalkerOnlyMoves(positions[1..]);
    }
  }

  class FloorGenerator {
    var floorMatrix: array2<int>
    var walkableTiles: seq<Cell>
    var walkerPresent: bool

    /** The generator starts with the one-row floor {1, 2}, no walkable tiles and no walker. */
    constructor ()
      ensures fresh(floorMatrix)
      ensures floorMatrix.Length0 == 1 && floorMatrix.Length1 == 2
      ensures floorMatrix[0, 0] == 1 && floorMatrix[0, 1] == 2
      ensures walkableTiles == [] && !walkerPresent
    {
      var m := new int[1, 2];
      m[0, 0], m[0, 1] := 1, 2;
      floorMatrix := m;
      walkableTiles := [];
      walkerPresent := false;
    }

    /** Lays the floor of the initial matrix, then places its buildings. */
    method Start() returns (regions: seq<seq<Cell>>, buildings: seq<Building>)
      requires floorMatrix.Length0 <= INT_MAX && floorMatrix.Length1 <= INT_MAX
      modifies this`walkableTiles
      ensures walkableTiles == old(walkableTiles) + CellsWithCode(floorMatrix, WALKABLE)
      ensures IsComponentLabelling(FootprintOf(floorMatrix), regions)
      ensures SeedIsLeast(regions) && SeedsInScanOrder(regions)
      ensures Placed(regions, buildings)
    {
      GenerateFloor();
      var count;
      regions, buildings, count := PlaceBuildings();
    }

    /**
     * Replaces the floor matrix wholesale, then lays its floor and places its
     * buildings. The walker is not a child of the generator, so it survives.
     */
    method BuildCityFromMatrix(matrix: array2<int>) returns (regions: seq<seq<Cell>>, buildings: seq<Building>)
      requires matrix.Length0 <= INT_MAX && matrix.Length1 <= INT_MAX
      modifies this
      ensures floorMatrix == matrix && walkerPresent == old(walkerPresent)
      ensures walkableTiles == old(walkableTiles) + CellsWithCode(matrix, WALKABLE)
      ensures IsComponentLabelling(FootprintOf(matrix), regions)
      ensures SeedIsLeast(regions) && SeedsInScanOrder(regions)
      ensures Placed(regions, buildings)
    {
      floorMatrix := matrix;
      GenerateFloor();
      var count;
      regions, buildings, count := PlaceBuildings();
    }

    /**
     * Scans the floor in row-major order and floods, from every footprint
     * cell not yet visited, the region it belongs to, placing one building
     * per region.
     */
    method PlaceBuildings() returns (regions: seq<seq<Cell>>, buildings: seq<Building>, regionCount: nat)
      requires floorMatrix.Length0 <= INT_MAX && floorMatrix.Length1 <= INT_MAX
      ensures regionCount == |regions| == |buildings|
      ensures AllRegions(FootprintOf(floorMatrix), regions)
      ensures PairwiseDisjoint(regions)
      ensures Covering(FootprintOf(floorMatrix), regions)
      ensures SeedIsLeast(regions) && SeedsInScanOrder(regions)
      ensures forall k :: 0 <= k < |regions| ==>
        Tight(buildings[k].box, regions[k]) && buildings[k].placement == PlanPlacement(buildings[k].box)
    {
      var g := floorMatrix;
      ghost var fp := FootprintOf(g);
      FootprintInBounds(g);
      var visited := new bool[g.Length0, g.Length1]((i, j) => false);
      ghost var covered: set<Cell> := {};
      regionCount := 0;
      regions, buildings := [], [];
      for x := 0 to g.Length0
        invariant ScanInvariant(fp, regions, covered)
        invariant ScannedBefore(fp, regions, covered, Cell(x, 0))
        invariant forall c {:trigger visited[c.x, c.y]} :: InBounds(g, c) ==> (visited[c.x, c.y] <==> c in covered)
        invariant regionCount == |regions| && Placed(regions, buildings)
      {
        regions, buildings, regionCount, covered := ScanRow(x, visited, regions, buildings, regionCount, covered);
      }
      ScanComplete(fp, regions, covered, g.Length0);
      assert g == floorMatrix;
    }

    /**
     * The inner loop of PlaceBuildings over row `x`: each footprint cell not
     * yet visited seeds a new region and its building.
     */
    method ScanRow(x: int, visited: array2<bool>, regions0: seq<seq<Cell>>, buildings0: seq<Building>,
                   regionCount0: nat, ghost covered0: set<Cell>)
      returns (regions: seq<seq<Cell>>, buildings: seq<Building>, regionCount: nat, ghost covered: set<Cell>)
      requires floorMatrix.Length0 <= INT_MAX && floorMatrix.Length1 <= INT_MAX && 0 <= x < floorMatrix.Length0
      requires visited.Length0 == floorMatrix.Length0 && visited.Length1 == floorMatrix.Length1
      requires ScanInvariant(FootprintOf(floorMatrix), regions0, covered0)
      requires ScannedBefore(FootprintOf(floorMatrix), regions0, covered0, Cell(x, 0))
      requires forall c {:trigger visited[c.x, c.y]} :: InBounds(floorMatrix, c) ==> (visited[c.x, c.y] <==> c in covered0)
      requires regionCount0 == |regions0| && Placed(regions0, buildings0)
      modifies visited
      ensures ScanInvariant(FootprintOf(floorMatrix), regions, covered)
      ensures ScannedBefore(FootprintOf(floorMatrix), regions, covered, Cell(x + 1, 0))
      ensures forall c {:trigger visited[c.x, c.y]} :: InBounds(floorMatrix, c) ==> (visited[c.x, c.y] <==> c in covered)
      ensures regionCount == |regions| && Placed(regions, buildings)
    {
      var g := floorMatrix;
      ghost var fp := FootprintOf(g);
      FootprintInBounds(g);
      regions, buildings, regionCount, covered := regions0, buildings0, regionCount0, covered0;
      for z := 0 to g.Length1
        invariant ScanInvariant(fp, regions, covered)
        invariant ScannedBefore(fp, regions, covered, Cell(x, z))
        invariant forall c {:trigger visited[c.x, c.y]} :: InBounds(g, c) ==> (visited[c.x, c.y] <==> c in covered)
        invariant regionCount == |regions| && Placed(regions, buildings)
      {
        FootprintCell(g, Cell(x, z));
        if g[x, z] == FOOTPRINT && !visited[x, z] {
          regions, buildings, regionCount, covered := ClaimRegion(x, z, visited, regions, buildings, regionCount, covered);
        } else {
          ScanNextCell(fp, regions, covered, Cell(x, z));
        }
      }
      ScanNextRow(fp, regions, covered, x, g.Length1);
    }

    /**
     * An unvisited footprint cell met by the scan of row `x`: the region
     * flooded from it is counted and gets its building.
     */
    method ClaimRegion(x: int, z: int, visited: array2<bool>, regions0: seq<seq<Cell>>, buildings0: seq<Building>,
                       regionCount0: nat, ghost covered0: set<Cell>)
      returns (regions: seq<seq<Cell>>, buildings: seq<Building>, regionCount: nat, ghost covered: set<Cell>)
      requires floorMatrix.Length0 <= INT_MAX && floorMatrix.Length1 <= INT_MAX
      requires visited.Length0 == floorMatrix.Length0 && visited.Length1 == floorMatrix.Length1
      requires InBounds(floorMatrix, Cell(x, z)) && floorMatrix[x, z] == FOOTPRINT && !visited[x, z]
      requires ScanInvariant(FootprintOf(floorMatrix), regions0, covered0)
      requires ScannedBefore(FootprintOf(floorMatrix), regions0, covered0, Cell(x, z))
      requires forall c {:trigger visited[c.x, c.y]} :: InBounds(floorMatrix, c) ==> (visited[c.x, c.y] <==> c in covered0)
      requires regionCount0 == |regions0| && Placed(regions0, buildings0)
      modifies visited
      ensures ScanInvariant(FootprintOf(floorMatrix), regions, covered)
      ensures ScannedBefore(FootprintOf(floorMatrix), regions, covered, Cell(x, z + 1))
      ensures forall c {:trigger visited[c.x, c.y]} :: InBounds(floorMatrix, c) ==> (visited[c.x, c.y] <==> c in covered)
      ensures regionCount == |regions| && Placed(regions, buildings)
    {
      var g := floorMatrix;
      ghost var fp := FootprintOf(g);
      FootprintCell(g, Cell(x, z));
      regions, buildings, regionCount, covered := regions0, buildings0, regionCount0, covered0;
      var buildingTiles := FloodRegion(x, z, visited, fp, regions, covered);
      if |buildingTiles| > 0 {
        regionCount := regionCount + 1;
        GridCellsAreInt32(g, buildingTiles);
        var building := PlaceBuilding(buildingTiles);
        PlacedAppend(regions, buildings, buildingTiles, building);
        regions := regions + [buildingTiles];
        buildings := buildings + [building];
        covered := covered + Elements(buildingTiles);
      }
    }

    /**
     * The flood from an unvisited footprint cell met by the scan of
     * PlaceBuildings: the region it returns extends the scan state, and the
     * visited array marks exactly the cells covered afterwards.
     */
    method FloodRegion(x: int, z: int, visited: array2<bool>, ghost fp: set<Cell>,
                       ghost regions: seq<seq<Cell>>, ghost covered: set<Cell>)
      returns (buildingTiles: seq<Cell>)
      requires visited.Length0 == floorMatrix.Length0 && visited.Length1 == floorMatrix.Length1
      requires fp == FootprintOf(floorMatrix) && Cell(x, z) in fp
      requires ScanInvariant(fp, regions, covered)
      requires ScannedBefore(fp, regions, covered, Cell(x, z))
      requires forall c {:trigger visited[c.x, c.y]} :: InBounds(floorMatrix, c) ==> (visited[c.x, c.y] <==> c in covered)
      requires !visited[x, z]
      modifies visited
      ensures |buildingTiles| > 0 && buildingTiles[0] == Cell(x, z)
      ensures forall t :: t in buildingTiles ==> InBounds(floorMatrix, t)
      ensures ScanInvariant(fp, regions + [buildingTiles], covered + Elements(buildingTiles))
      ensures ScannedBefore(fp, regions + [buildingTiles], covered + Elements(buildingTiles), Cell(x, z + 1))
      ensures forall c {:trigger visited[c.x, c.y]} :: InBounds(floorMatrix, c) ==>
        (visited[c.x, c.y] <==> c in covered + Elements(buildingTiles))
    {
      FootprintOfExact(floorMatrix);
      buildingTiles := GetConnectedTiles(x, z, visited);
      AddRegion(fp, regions, covered, buildingTiles, Cell(x, z));
      AddRegionAdvancesScan(fp, regions, covered, buildingTiles, Cell(x, z));
    }

    /**
     * Breadth-first flood fill from (startX, startZ) over unvisited footprint
     * cells, marking each cell visited when it is dequeued.
     */
    method GetConnectedTiles(startX: int, startZ: int, visited: array2<bool>) returns (connectedTiles: seq<Cell>)
      requires visited.Length0 == floorMatrix.Length0 && visited.Length1 == floorMatrix.Length1
      requires InBounds(floorMatrix, Cell(startX, startZ))
      modifies visited
      ensures forall c :: c in connectedTiles ==> InBounds(floorMatrix, c) && !old(visited[c.x, c.y])
      ensures forall k :: 0 < k < |connectedTiles| ==> IsFootprint(floorMatrix, connectedTiles[k])
      ensures Distinct(connectedTiles) && Chained(connectedTiles)
      ensures old(visited[startX, startZ]) ==> connectedTiles == []
      ensures !old(visited[startX, startZ]) ==> connectedTiles != [] && connectedTiles[0] == Cell(startX, startZ)
      ensures forall c {:trigger visited[c.x, c.y]} :: InBounds(floorMatrix, c) ==>
        visited[c.x, c.y] == (old(visited[c.x, c.y]) || c in connectedTiles)
      ensures forall c, n :: c in connectedTiles && Adjacent(c, n) && IsFootprint(floorMatrix, n) ==>
        n in connectedTiles || old(visited[n.x, n.y])
    {
      var g := floorMatrix;
      var start := Cell(startX, startZ);
      ghost var fp := FootprintOf(g);
      FootprintOfExact(g);
      ghost var all := AllCells(g.Length0, g.Length1);
      ghost var before := MarkedCells(visited);
      MarkedCellsExact(visited);
      assert forall c {:trigger old(visited[c.x, c.y])} :: InBounds(g, c) ==> (c in before <==> old(visited[c.x, c.y]));
      connectedTiles := [];
      var toVisit := [start];
      BfsInit(g, fp, start, before);
      while |toVisit| > 0
        invariant BfsState(g, fp, start, before, connectedTiles, toVisit)
        invariant forall c {:trigger visited[c.x, c.y]} :: InBounds(g, c) ==> (visited[c.x, c.y] <==> c in before || c in connectedTiles)
        decreases all - (before + Elements(connectedTiles)), |toVisit|
      {
        var current := toVisit[0];
        if visited[current.x, current.y] {
          BfsSkip(g, fp, start, before, connectedTiles, toVisit);
          toVisit := toVisit[1..];
        } else {
          InAllCells(g, current);
          UnseenShrinks(all, before, connectedTiles, current);
          toVisit := VisitTile(fp, start, before, connectedTiles, toVisit, visited);
          connectedTiles := connectedTiles + [current];
        }
      }
      BfsDone(g, fp, start, before, connectedTiles);
    }

    /**
     * One visit of the flood fill: mark the dequeued cell visited and enqueue
     * its open neighbours behind the rest of the queue.
     */
    method VisitTile(ghost fp: set<Cell>, ghost start: Cell, ghost before: set<Cell>, tiles: seq<Cell>, pending: seq<Cell>,
                     visited: array2<bool>) returns (queue: seq<Cell>)
      requires visited.Length0 == floorMatrix.Length0 && visited.Length1 == floorMatrix.Length1
      requires fp == FootprintOf(floorMatrix)
      requires BfsState(floorMatrix, fp, start, before, tiles, pending)
      requires |pending| > 0 && pending[0] !in before && pending[0] !in tiles && InBounds(floorMatrix, pending[0])
      requires forall c {:trigger visited[c.x, c.y]} :: InBounds(floorMatrix, c) ==> (visited[c.x, c.y] <==> c in before || c in tiles)
      modifies visited
      ensures BfsState(floorMatrix, fp, start, before, tiles + [pending[0]], queue)
      ensures forall c {:trigger visited[c.x, c.y]} :: InBounds(floorMatrix, c) ==>
        (visited[c.x, c.y] <==> c in before || c in tiles + [pending[0]])
    {
      FootprintOfExact(floorMatrix);
      var current := pending[0];
      visited[current.x, current.y] := true;
      queue := EnqueueOpenNeighbors(current, visited, pending[1..]);
      BfsVisit(floorMatrix, fp, start, before, tiles, pending, current, queue);
    }

    /** The neighbour loop of the flood fill: enqueue each in-bounds, unvisited footprint neighbour. */
    method EnqueueOpenNeighbors(current: Cell, visited: array2<bool>, toVisit: seq<Cell>) returns (queue: seq<Cell>)
      requires visited.Length0 == floorMatrix.Length0 && visited.Length1 == floorMatrix.Length1
      ensures |toVisit| <= |queue| && queue[..|toVisit|] == toVisit
      ensures forall k :: |toVisit| <= k < |queue| ==>
        Adjacent(current, queue[k]) && IsFootprint(floorMatrix, queue[k])
      ensures forall n :: Adjacent(current, n) && IsFootprint(floorMatrix, n) && !visited[n.x, n.y] ==> n in queue
    {
      var neighbors := Neighbors(current);
      queue := toVisit;
      for i := 0 to 4
        invariant |toVisit| <= |queue| && queue[..|toVisit|] == toVisit
        invariant forall k :: |toVisit| <= k < |queue| ==>
          Adjacent(current, queue[k]) && IsFootprint(floorMatrix, queue[k])
        invariant forall j :: 0 <= j < i && IsFootprint(floorMatrix, neighbors[j]) && !visited[neighbors[j].x, neighbors[j].y] ==>
          neighbors[j] in queue
      {
        var neighbor := neighbors[i];
        if neighbor.x >= 0 && neighbor.x < floorMatrix.Length0 &&
           neighbor.y >= 0 && neighbor.y < floorMatrix.Length1 &&
           floorMatrix[neighbor.x, neighbor.y] == FOOTPRINT && !visited[neighbor.x, neighbor.y]
        {
          queue := queue + [neighbor];
        }
      }
    }

    /**
     * The bounding box of a building's tiles, computed from the extreme
     * values of C#'s int as the source does, and the placement it gives.
     */
    method PlaceBuilding(buildingTiles: seq<Cell>) returns (building: Building)
      requires |buildingTiles| > 0
      requires forall t :: t in buildingTiles ==> IsInt32(t.x) && IsInt32(t.y)
      ensures Tight(building.box, buildingTiles)
      ensures building.placement == PlanPlacement(building.box)
    {
      var minX, minZ, maxX, maxZ := INT_MAX, INT_MAX, INT_MIN, INT_MIN;
      for i := 0 to |buildingTiles|
        invariant forall k :: 0 <= k < i ==>
          minX <= buildingTiles[k].x <= maxX && minZ <= buildingTiles[k].y <= maxZ
        invariant i == 0 ==> minX == INT_MAX && minZ == INT_MAX && maxX == INT_MIN && maxZ == INT_MIN
        invariant i > 0 ==> exists k :: 0 <= k < i && buildingTiles[k].x == minX
        invariant i > 0 ==> exists k :: 0 <= k < i && buildingTiles[k].x == maxX
        invariant i > 0 ==> exists k :: 0 <= k < i && buildingTiles[k].y == minZ
        invariant i > 0 ==> exists k :: 0 <= k < i && buildingTiles[k].y == maxZ
      {
        var tile := buildingTiles[i];
        assert tile in buildingTiles;
        minX := Min(minX, tile.x);
        minZ := Min(minZ, tile.y);
        maxX := Max(maxX, tile.x);
        maxZ := Max(maxZ, tile.y);
      }
      var box := Box(minX, minZ, maxX, maxZ);
      building := Building(box, PlanPlacement(box));
    }

    /** Appends the walkable (code 1) cells of the floor, in row-major order, to the walkable tiles. */
    method GenerateFloor()
      modifies this`walkableTiles
      ensures walkableTiles == old(walkableTiles) + CellsWithCode(floorMatrix, WALKABLE)
    {
      for x := 0 to floorMatrix.Length0
        invariant walkableTiles == old(walkableTiles) + GridCells(floorMatrix, WALKABLE, x)
      {
        for z := 0 to floorMatrix.Length1
          invariant walkableTiles ==
            old(walkableTiles) + GridCells(floorMatrix, WALKABLE, x) + RowCells(floorMatrix, WALKABLE, x, z)
        {
          var prefab := PrefabForValue(floorMatrix[x, z]);
          if prefab.Some? {
            if floorMatrix[x, z] == WALKABLE {
              walkableTiles := walkableTiles + [Cell(x, z)];
            }
          }
        }
      }
    }

    /**
     * The walkable cells among the four neighbours of `currentTile`, in the
     * order up, down, left, right.
     */
    method GetValidNeighbors(currentTile: Cell) returns (neighbors: seq<Cell>)
      ensures neighbors == WalkableAmong(floorMatrix, Candidates(currentTile))
      ensures |neighbors| <= 4
      ensures forall n :: n in neighbors <==> Adjacent(currentTile, n) && HasCode(floorMatrix, n, WALKABLE)
    {
      var cs := Candidates(currentTile);
      neighbors := [];
      for i := 0 to 4
        invariant neighbors == WalkableAmong(floorMatrix, cs[..i])
      {
        var neighbor := cs[i];
        assert cs[..i + 1][..i] == cs[..i];
        if neighbor.x >= 0 && neighbor.x < floorMatrix.Length0 &&
           neighbor.y >= 0 && neighbor.y < floorMatrix.Length1 &&
           floorMatrix[neighbor.x, neighbor.y] == WALKABLE
        {
          neighbors := neighbors + [neighbor];
        }
      }
      assert cs[..4] == cs;
      WalkableAmongExact(floorMatrix, cs);
    }

    /**
     * Successive SpawnWalker calls at `positions`, as the queued agent
     * actions issue them: the commands are WalkerCommands of the positions.
     */
    method SpawnWalkerAll(positions: seq<Cell>) returns (commands: seq<WalkerCommand>)
      modifies this`walkerPresent
      ensures commands == WalkerCommands(old(walkerPresent), positions)
      ensures walkerPresent == (old(walkerPresent) || |positions| > 0)
    {
      commands := [];
      for i := 0 to |positions|
        invariant walkerPresent == (old(walkerPresent) || i > 0)
        invariant commands + WalkerCommands(walkerPresent, positions[i..]) == WalkerCommands(old(walkerPresent), positions)
      {
        assert positions[i..][1..] == positions[i + 1..];
        var command := SpawnWalker(positions[i]);
        commands := commands + [command];
      }
    }

    /** Creates the walker on the first call; every later call only moves it. */
    method SpawnWalker(position: Cell) returns (command: WalkerCommand)
      modifies this`walkerPresent
      ensures walkerPresent
      ensures !old(walkerPresent) ==> command == Spawn(position)
      ensures old(walkerPresent) ==> command == MoveTo(position)
      ensures command == WalkerStep(old(walkerPresent), position)
    {
      if !walkerPresent {
        walkerPresent := true;
        command := Spawn(position);
      } else {
        command := MoveTo(position);
      }
    }
  }
}
