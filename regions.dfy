/**
 * What a building region is, and what a complete labelling of a grid's
 * footprint cells into regions is: the specification of PlaceBuildings and
 * GetConnectedTiles. Everything here is stated over `fp`, the set of the
 * grid's footprint cells (Cells.FootprintOf).
 */
module Regions {
  import opened Cells

  ghost function Elements(s: seq<Cell>): set<Cell>
  {
    set c | c in s
  }

  ghost predicate Distinct(s: seq<Cell>)
  {
    forall i, j :: 0 <= i < j < |s| ==> s[i] != s[j]
  }

  ghost predicate AllFootprint(fp: set<Cell>, s: seq<Cell>)
  {
    forall c :: c in s ==> c in fp
  }

  /** `c` is adjacent to some cell of `s`. */
  ghost predicate Linked(s: seq<Cell>, c: Cell)
  {
    exists j :: 0 <= j < |s| && Adjacent(s[j], c)
  }

  /** Every cell after the first is adjacent to an earlier one: the cells form one 4-connected piece. */
  ghost predicate Chained(s: seq<Cell>)
  {
    forall k :: 0 < k < |s| ==> Linked(s[..k], s[k])
  }

  /** No footprint cell adjacent to a cell of `s` lies outside `s`. */
  ghost predicate Maximal(fp: set<Cell>, s: seq<Cell>)
  {
    forall c, n {:trigger Adjacent(c, n)} :: c in s && Adjacent(c, n) && n in fp ==> n in s
  }

  /** The same closure property, for a set of cells. */
  ghost predicate ClosedSet(fp: set<Cell>, s: set<Cell>)
  {
    forall c, n {:trigger Adjacent(c, n)} :: c in s && Adjacent(c, n) && n in fp ==> n in s
  }

  /** A building region: a non-empty, duplicate-free, connected and maximal set of footprint cells. */
  ghost predicate IsRegion(fp: set<Cell>, r: seq<Cell>)
  {
    |r| > 0 && Distinct(r) && AllFootprint(fp, r) && Chained(r) && Maximal(fp, r)
  }

  ghost predicate AllRegions(fp: set<Cell>, rs: seq<seq<Cell>>)
  {
    forall k :: 0 <= k < |rs| ==> IsRegion(fp, rs[k])
  }

  ghost predicate PairwiseDisjoint(rs: seq<seq<Cell>>)
  {
    forall a, b, c :: 0 <= a < b < |rs| && c in rs[a] ==> c !in rs[b]
  }

  ghost predicate InSome(rs: seq<seq<Cell>>, c: Cell)
  {
    exists k :: 0 <= k < |rs| && c in rs[k]
  }

  /** The regions together hold exactly the footprint cells of the grid. */
  ghost predicate Covering(fp: set<Cell>, rs: seq<seq<Cell>>)
  {
    forall c :: c in fp <==> InSome(rs, c)
  }

  /** A decomposition of the footprint cells into their 4-connected components. */
  ghost predicate IsComponentLabelling(fp: set<Cell>, rs: seq<seq<Cell>>)
  {
    AllRegions(fp, rs) && PairwiseDisjoint(rs) && Covering(fp, rs)
  }

  /** The first cell of each region is its row-major least cell. */
  ghost predicate SeedIsLeast(rs: seq<seq<Cell>>)
  {
    forall k, c :: 0 <= k < |rs| && c in rs[k] ==> c == rs[k][0] || RowMajorBefore(rs[k][0], c)
  }

  /** Regions appear in increasing row-major order of their first cells. */
  ghost predicate SeedsInScanOrder(rs: seq<seq<Cell>>)
  {
    forall a, b :: 0 <= a < b < |rs| && |rs[a]| > 0 && |rs[b]| > 0 ==> RowMajorBefore(rs[a][0], rs[b][0])
  }

  /**
   * What the row-major scan of PlaceBuildings keeps: the regions found so
   * far, and `covered`, the cells they hold (the cells marked visited).
   */
  ghost predicate ScanInvariant(fp: set<Cell>, rs: seq<seq<Cell>>, covered: set<Cell>)
  {
    && AllRegions(fp, rs)
    && PairwiseDisjoint(rs)
    && SeedIsLeast(rs)
    && SeedsInScanOrder(rs)
    && (forall c :: c in covered <==> InSome(rs, c))
    && (forall c :: c in covered ==> c in fp)
    && ClosedSet(fp, covered)
  }

  /** Every footprint cell before `p` is covered and every region starts before `p`. */
  ghost predicate ScannedBefore(fp: set<Cell>, rs: seq<seq<Cell>>, covered: set<Cell>, p: Cell)
  {
    && (forall c :: c in fp && RowMajorBefore(c, p) ==> c in covered)
    && (forall k :: 0 <= k < |rs| && |rs[k]| > 0 ==> RowMajorBefore(rs[k][0], p))
  }

  lemma ChainedAppend(s: seq<Cell>, c: Cell)
    requires Chained(s)
    requires s != [] ==> Linked(s, c)
    ensures Chained(s + [c])
  {
    var t := s + [c];
    forall k | 0 < k < |t|
      ensures Linked(t[..k], t[k])
    {
      if k < |s| {
        assert t[..k] == s[..k];
        assert t[k] == s[k];
      } else {
        assert t[..k] == s;
      }
    }
  }

  lemma LinkedAppend(s: seq<Cell>, c: Cell, q: Cell)
    requires Linked(s, q)
    ensures Linked(s + [c], q)
  {
    var j :| 0 <= j < |s| && Adjacent(s[j], q);
    assert (s + [c])[j] == s[j];
  }

  /**
   * Adding the region found from seed `p` to a scan state: the region's
   * cells are unvisited, it is maximal except for cells already covered, and
   * the scan has covered every footprint cell before `p`.
   */
  lemma {:induction false} AddRegion(fp: set<Cell>, rs: seq<seq<Cell>>, covered: set<Cell>, r: seq<Cell>, p: Cell)
    requires ScanInvariant(fp, rs, covered)
    requires ScannedBefore(fp, rs, covered, p)
    requires p in fp && p !in covered
    requires |r| > 0 && r[0] == p && Distinct(r) && Chained(r)
    requires forall k :: 0 < k < |r| ==> r[k] in fp
    requires forall c :: c in r ==> c !in covered
    requires forall c, n :: c in r && Adjacent(c, n) && n in fp ==> n in r || n in covered
    ensures ScanInvariant(fp, rs + [r], covered + Elements(r))
    ensures IsRegion(fp, r)
  {
    var rs' := rs + [r];
    var cov' := covered + Elements(r);
    assert AllFootprint(fp, r) by {
      forall c | c in r ensures c in fp {
        var k :| 0 <= k < |r| && r[k] == c;
      }
    }
    assert Maximal(fp, r) by {
      forall c, n | c in r && Adjacent(c, n) && n in fp ensures n in r {
        assert Adjacent(n, c) && c !in covered;
      }
    }
    assert AllRegions(fp, rs') by {
      forall k | 0 <= k < |rs'| ensures IsRegion(fp, rs'[k]) {
        if k < |rs| { assert rs'[k] == rs[k]; }
      }
    }
    assert PairwiseDisjoint(rs') by {
      forall a, b, c | 0 <= a < b < |rs'| && c in rs'[a] ensures c !in rs'[b] {
        assert rs'[a] == rs[a];
        if b < |rs| {
          assert rs'[b] == rs[b];
        } else {
          assert InSome(rs, c);
        }
      }
    }
    assert SeedIsLeast(rs') by {
      forall k, c | 0 <= k < |rs'| && c in rs'[k] ensures c == rs'[k][0] || RowMajorBefore(rs'[k][0], c) {
        if k < |rs| {
          assert rs'[k] == rs[k];
        } else {
          assert rs'[k] == r;
          assert c in fp && c !in covered;
        }
      }
    }
    assert SeedsInScanOrder(rs') by {
      forall a, b | 0 <= a < b < |rs'| && |rs'[a]| > 0 && |rs'[b]| > 0
        ensures RowMajorBefore(rs'[a][0], rs'[b][0])
      {
        assert rs'[a] == rs[a];
        if b < |rs| { assert rs'[b] == rs[b]; }
      }
    }
    forall c | c in cov' ensures InSome(rs', c) {
      if c in covered {
        var k :| 0 <= k < |rs| && c in rs[k];
        assert rs'[k] == rs[k];
      } else {
        assert rs'[|rs|] == r;
      }
    }
    forall c | InSome(rs', c) ensures c in cov' {
      var k :| 0 <= k < |rs'| && c in rs'[k];
      if k < |rs| {
        assert rs'[k] == rs[k];
        assert InSome(rs, c);
      } else {
        assert rs'[k] == r;
      }
    }
    assert ClosedSet(fp, cov') by {
      forall c, n | c in cov' && Adjacent(c, n) && n in fp ensures n in cov' {
        if c !in covered { assert c in r; }
      }
    }
  }

  /** Walking back along the chain from a cell of `r` inside a maximal `s` reaches the first cell. */
  lemma {:induction false} FirstInMaximal(fp: set<Cell>, r: seq<Cell>, s: seq<Cell>, k: nat)
    requires Chained(r) && AllFootprint(fp, r) && Maximal(fp, s)
    requires k < |r| && r[k] in s
    ensures r[0] in s
    decreases k
  {
    if k > 0 {
      assert Linked(r[..k], r[k]);
      var j :| 0 <= j < k && Adjacent(r[..k][j], r[k]);
      assert r[..k][j] == r[j];
      assert Adjacent(r[k], r[j]) && r[j] in fp;
      FirstInMaximal(fp, r, s, j);
    }
  }

  /** Walking forward along the chain from the first cell stays inside a maximal `s`. */
  lemma {:induction false} PrefixInMaximal(fp: set<Cell>, r: seq<Cell>, s: seq<Cell>, k: nat)
    requires Chained(r) && AllFootprint(fp, r) && Maximal(fp, s)
    requires 0 < |r| && r[0] in s && k <= |r|
    ensures forall i :: 0 <= i < k ==> r[i] in s
    decreases k
  {
    if k > 1 {
      PrefixInMaximal(fp, r, s, k - 1);
      assert Linked(r[..k - 1], r[k - 1]);
      var j :| 0 <= j < k - 1 && Adjacent(r[..k - 1][j], r[k - 1]);
      assert r[..k - 1][j] == r[j];
      assert r[k - 1] in fp;
    }
  }

  /** Two regions that share a cell hold the same cells. */
  lemma {:induction false} RegionsMeetingAreEqual(fp: set<Cell>, r1: seq<Cell>, r2: seq<Cell>, c: Cell)
    requires IsRegion(fp, r1) && IsRegion(fp, r2)
    requires c in r1 && c in r2
    ensures Elements(r1) == Elements(r2)
  {
    var i :| 0 <= i < |r1| && r1[i] == c;
    var j :| 0 <= j < |r2| && r2[j] == c;
    FirstInMaximal(fp, r1, r2, i);
    PrefixInMaximal(fp, r1, r2, |r1|);
    FirstInMaximal(fp, r2, r1, j);
    PrefixInMaximal(fp, r2, r1, |r2|);
  }

  ghost function RegionSets(rs: seq<seq<Cell>>): set<set<Cell>>
  {
    set k | 0 <= k < |rs| :: Elements(rs[k])
  }

  lemma {:induction false} LabellingIncluded(fp: set<Cell>, l1: seq<seq<Cell>>, l2: seq<seq<Cell>>)
    requires IsComponentLabelling(fp, l1) && IsComponentLabelling(fp, l2)
    ensures RegionSets(l1) <= RegionSets(l2)
  {
    forall e | e in RegionSets(l1) ensures e in RegionSets(l2) {
      var a :| 0 <= a < |l1| && e == Elements(l1[a]);
      var r := l1[a];
      assert IsRegion(fp, r);
      assert r[0] in r && r[0] in fp;
      assert InSome(l2, r[0]);
      var b :| 0 <= b < |l2| && r[0] in l2[b];
      RegionsMeetingAreEqual(fp, r, l2[b], r[0]);
    }
  }

  /**
   * The decomposition into components is unique: any two labellings of one
   * grid hold the same regions as cell sets, whatever order a traversal
   * found them in.
   */
  lemma LabellingUnique(fp: set<Cell>, l1: seq<seq<Cell>>, l2: seq<seq<Cell>>)
    requires IsComponentLabelling(fp, l1) && IsComponentLabelling(fp, l2)
    ensures RegionSets(l1) == RegionSets(l2)
  {
    LabellingIncluded(fp, l1, l2);
    LabellingIncluded(fp, l2, l1);
  }

  /** A labelling has no regions exactly when the grid has no footprint cell. */
  lemma NoFootprintNoRegions(fp: set<Cell>, rs: seq<seq<Cell>>)
    requires IsComponentLabelling(fp, rs)
    ensures rs == [] <==> fp == {}
  {
    if rs != [] {
      assert IsRegion(fp, rs[0]);
      assert rs[0][0] in rs[0];
    } else {
      forall c ensures c !in fp {
        assert !InSome(rs, c);
      }
    }
  }

  /** After the region seeded at `p` is added, the scan moves past `p`. */
  lemma AddRegionAdvancesScan(fp: set<Cell>, rs: seq<seq<Cell>>, covered: set<Cell>, r: seq<Cell>, p: Cell)
    requires ScannedBefore(fp, rs, covered, p)
    requires |r| > 0 && r[0] == p
    ensures ScannedBefore(fp, rs + [r], covered + Elements(r), Cell(p.x, p.y + 1))
  {
    var rs' := rs + [r];
    assert p in r;
    forall k | 0 <= k < |rs'| && |rs'[k]| > 0 ensures RowMajorBefore(rs'[k][0], Cell(p.x, p.y + 1)) {
      if k < |rs| { assert rs'[k] == rs[k]; }
    }
  }

  /** Moving the scan past a cell that is covered unless it is no footprint cell. */
  lemma ScanNextCell(fp: set<Cell>, rs: seq<seq<Cell>>, covered: set<Cell>, p: Cell)
    requires ScannedBefore(fp, rs, covered, p)
    requires p in fp ==> p in covered
    ensures ScannedBefore(fp, rs, covered, Cell(p.x, p.y + 1))
  {
  }

  /** Moving the scan from the end of row `x` to the start of row `x + 1`. */
  lemma ScanNextRow(fp: set<Cell>, rs: seq<seq<Cell>>, covered: set<Cell>, x: int, cols: int)
    requires forall c :: c in fp ==> 0 <= c.y < cols
    requires ScanInvariant(fp, rs, covered)
    requires ScannedBefore(fp, rs, covered, Cell(x, cols))
    ensures ScannedBefore(fp, rs, covered, Cell(x + 1, 0))
  {
    forall c | c in fp && RowMajorBefore(c, Cell(x + 1, 0)) ensures c in covered {
      assert RowMajorBefore(c, Cell(x, cols));
    }
    forall k | 0 <= k < |rs| && |rs[k]| > 0 ensures RowMajorBefore(rs[k][0], Cell(x + 1, 0)) {
      assert RowMajorBefore(rs[k][0], Cell(x, cols));
    }
  }

  /** Once the scan has passed the last row, the regions are a complete component labelling. */
  lemma ScanComplete(fp: set<Cell>, rs: seq<seq<Cell>>, covered: set<Cell>, rows: int)
    requires forall c :: c in fp ==> c.x < rows
    requires ScanInvariant(fp, rs, covered)
    requires ScannedBefore(fp, rs, covered, Cell(rows, 0))
    ensures IsComponentLabelling(fp, rs)
  {
    forall c ensures c in fp <==> InSome(rs, c) {
      if c in fp {
        assert RowMajorBefore(c, Cell(rows, 0));
      }
    }
  }
}
