/**
 * The state of the breadth-first flood fill of GetConnectedTiles, stated over
 * values: the grid's footprint cells (`fp`), the cells visited before the
 * fill began (`before`), the cells collected so far (`tiles`) and the pending
 * queue (`queue`). The grid `g` is consulted only for its dimensions.
 */
module FloodFill {
  import opened Cells
  import opened Regions

  /** All cells of a `rows` by `cols` grid. */
  ghost function AllCells(rows: int, cols: int): set<Cell>
  {
    set i, j | 0 <= i < rows && 0 <= j < cols :: Cell(i, j)
  }

  lemma InAllCells(g: array2<int>, c: Cell)
    requires InBounds(g, c)
    ensures c in AllCells(g.Length0, g.Length1)
  {
    assert c == Cell(c.x, c.y);
  }

  /** Collecting a cell not seen before shrinks the set of cells not yet seen. */
  lemma UnseenShrinks(all: set<Cell>, before: set<Cell>, tiles: seq<Cell>, c: Cell)
    requires c in all && c !in before && c !in tiles
    ensures all - (before + Elements(tiles + [c])) < all - (before + Elements(tiles))
  {
    assert c in all - (before + Elements(tiles));
    assert c !in all - (before + Elements(tiles + [c]));
  }

  /** The cells marked in a visited array. */
  ghost function MarkedCells(visited: array2<bool>): set<Cell>
    reads visited
  {
    set i, j | 0 <= i < visited.Length0 && 0 <= j < visited.Length1 && visited[i, j] :: Cell(i, j)
  }

  lemma MarkedCellsExact(visited: array2<bool>)
    ensures forall c: Cell :: 0 <= c.x < visited.Length0 && 0 <= c.y < visited.Length1 ==>
      (c in MarkedCells(visited) <==> visited[c.x, c.y])
  {
    forall c: Cell | 0 <= c.x < visited.Length0 && 0 <= c.y < visited.Length1
      ensures c in MarkedCells(visited) <==> visited[c.x, c.y]
    {
      assert c == Cell(c.x, c.y);
    }
  }

  /** A queued cell is in bounds and is the seed or a footprint cell next to a collected one. */
  ghost predicate Pending(g: array2<int>, fp: set<Cell>, start: Cell, tiles: seq<Cell>, q: Cell)
  {
    InBounds(g, q) && (q == start || (q in fp && Linked(tiles, q)))
  }

  ghost predicate BfsState(g: array2<int>, fp: set<Cell>, start: Cell, before: set<Cell>, tiles: seq<Cell>, queue: seq<Cell>)
  {
    && (forall k :: 0 <= k < |queue| ==> Pending(g, fp, start, tiles, queue[k]))
    && (forall c :: c in tiles ==> InBounds(g, c) && c !in before)
    && (forall k :: 0 < k < |tiles| ==> tiles[k] in fp)
    && Distinct(tiles)
    && Chained(tiles)
    && (tiles != [] ==> tiles[0] == start)
    && (start in before ==> tiles == [])
    && (start !in before && tiles == [] ==> queue == [start])
    && (forall c, n {:trigger Adjacent(c, n)} :: c in tiles && Adjacent(c, n) && n in fp ==> n in before || n in tiles || n in queue)
  }

  lemma BfsInit(g: array2<int>, fp: set<Cell>, start: Cell, before: set<Cell>)
    requires InBounds(g, start)
    ensures BfsState(g, fp, start, before, [], [start])
  {
  }

  /** Dequeuing a cell that is already visited. */
  lemma BfsSkip(g: array2<int>, fp: set<Cell>, start: Cell, before: set<Cell>, tiles: seq<Cell>, queue: seq<Cell>)
    requires BfsState(g, fp, start, before, tiles, queue)
    requires |queue| > 0 && (queue[0] in before || queue[0] in tiles)
    ensures BfsState(g, fp, start, before, tiles, queue[1..])
  {
    var rest := queue[1..];
    forall k | 0 <= k < |rest| ensures Pending(g, fp, start, tiles, rest[k]) {
      assert rest[k] == queue[k + 1];
    }
    forall n | n in queue ensures n == queue[0] || n in rest {
      var k :| 0 <= k < |queue| && queue[k] == n;
      if k > 0 { assert rest[k - 1] == n; }
    }
  }

  /**
   * Dequeuing an unvisited cell: it is collected, and `next` is the rest of
   * the queue followed by the footprint neighbours of `cur` not yet visited.
   */
  lemma {:induction false} BfsVisit(g: array2<int>, fp: set<Cell>, start: Cell, before: set<Cell>, tiles: seq<Cell>,
                                    queue: seq<Cell>, cur: Cell, next: seq<Cell>)
    requires forall c :: c in fp ==> InBounds(g, c)
    requires BfsState(g, fp, start, before, tiles, queue)
    requires |queue| > 0 && cur == queue[0] && cur !in before && cur !in tiles
    requires |queue| - 1 <= |next| && next[..|queue| - 1] == queue[1..]
    requires forall k :: |queue| - 1 <= k < |next| ==> Adjacent(cur, next[k]) && next[k] in fp
    requires forall n :: Adjacent(cur, n) && n in fp && !(n in before || n in tiles || n == cur) ==> n in next
    ensures BfsState(g, fp, start, before, tiles + [cur], next)
  {
    var tiles' := tiles + [cur];
    var m := |queue| - 1;
    assert Pending(g, fp, start, tiles, cur);
    assert tiles == [] ==> cur == start;
    assert tiles != [] ==> cur != start;
    ChainedAppend(tiles, cur);
    forall k | 0 <= k < |next| ensures Pending(g, fp, start, tiles', next[k]) {
      if k < m {
        assert next[k] == next[..m][k] == queue[k + 1];
        if next[k] != start { LinkedAppend(tiles, cur, next[k]); }
      } else {
        assert tiles'[|tiles|] == cur;
      }
    }
    forall k | 0 < k < |tiles'| ensures tiles'[k] in fp {
      if k < |tiles| { assert tiles'[k] == tiles[k]; }
    }
    assert Distinct(tiles') by {
      forall i, j | 0 <= i < j < |tiles'| ensures tiles'[i] != tiles'[j] {
        assert tiles'[i] == tiles[i];
        if j < |tiles| { assert tiles'[j] == tiles[j]; }
      }
    }
    forall n | n in queue ensures n == cur || n in next {
      var k :| 0 <= k < |queue| && queue[k] == n;
      if k > 0 { assert next[..m][k - 1] == n; }
    }
  }

  /** With the queue empty, the collected cells are closed up to the cells visited before. */
  lemma BfsDone(g: array2<int>, fp: set<Cell>, start: Cell, before: set<Cell>, tiles: seq<Cell>)
    requires BfsState(g, fp, start, before, tiles, [])
    ensures forall c, n :: c in tiles && Adjacent(c, n) && n in fp ==> n in before || n in tiles
    ensures start !in before ==> tiles != [] && tiles[0] == start
  {
  }
}
