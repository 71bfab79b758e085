/** The `Tiling` value: grid dimensions plus the tiles placed so far, and
    what the engine derives from it (occupied cells, free cells,
    completeness). */
module Tilings {
  import opened Seqs
  import opened Geometry

  datatype Tiling = Tiling(width: int, height: int, tiles: seq<Tile>)

  /** Some placed tile covers `p`. */
  predicate Claims(tiles: seq<Tile>, p: Position) {
    exists i :: 0 <= i < |tiles| && p in Endpoints(tiles[i])
  }

  /** `occupiedPositions`: the endpoints of every tile, tile by tile
      (a `flatMap` over the tile list). */
  function Occupied(tiles: seq<Tile>): (r: seq<Position>)
    ensures |r| == 2 * |tiles|
    ensures forall k :: 0 <= k < |r| ==>
      r[k] == (if k % 2 == 0 then tiles[k / 2].first else tiles[k / 2].second)
    decreases |tiles|
  {
    if |tiles| == 0 then []
    else
      var last := tiles[|tiles| - 1];
      Occupied(tiles[..|tiles| - 1]) + [last.first, last.second]
  }

  /** A cell is in the occupied list exactly when some tile covers it. */
  lemma OccupiedMeansClaimed(tiles: seq<Tile>, p: Position)
    ensures p in Occupied(tiles) <==> Claims(tiles, p)
  {
    var r := Occupied(tiles);
    if p in r {
      var k :| 0 <= k < |r| && r[k] == p;
      assert p in Endpoints(tiles[k / 2]);
    }
    if Claims(tiles, p) {
      var i :| 0 <= i < |tiles| && p in Endpoints(tiles[i]);
      assert r[2 * i] == tiles[i].first && r[2 * i + 1] == tiles[i].second;
    }
  }

  /** `isInBounds`. */
  predicate InBounds(t: Tiling, p: Position) {
    0 <= p.x < t.width && 0 <= p.y < t.height
  }

  /** `isFreePosition`: in bounds and not an endpoint of any placed tile. */
  function IsFree(t: Tiling, p: Position): (r: bool)
    ensures r <==> InBounds(t, p) && forall i :: 0 <= i < |t.tiles| ==> p !in Endpoints(t.tiles[i])
  {
    OccupiedMeansClaimed(t.tiles, p);
    InBounds(t, p) && p !in Occupied(t.tiles)
  }

  /** The enumeration order of `freePositions`: column by column, and
      by increasing y within a column. */
  predicate Before(p: Position, q: Position) {
    p.x < q.x || (p.x == q.x && p.y < q.y)
  }

  /** Cells listed by increasing y. */
  predicate Ascending(r: seq<Position>) {
    forall i, j :: 0 <= i < j < |r| ==> r[i].y < r[j].y
  }

  /** Cells listed column by column, by increasing y within a column. */
  predicate ColumnMajor(r: seq<Position>) {
    forall i, j :: 0 <= i < j < |r| ==> Before(r[i], r[j])
  }

  /** The inner loop of `freePositions`: the free cells of column `x`
      among its first `rows` rows, by increasing y. */
  function FreeInColumn(t: Tiling, x: int, rows: int): (r: seq<Position>)
    ensures forall i :: 0 <= i < |r| ==> r[i].x == x && r[i].y < rows && IsFree(t, r[i])
    ensures forall y :: y < rows && IsFree(t, Position(x, y)) ==> Position(x, y) in r
    decreases rows
  {
    if rows <= 0 then []
    else
      var here := Position(x, rows - 1);
      FreeInColumn(t, x, rows - 1) + (if IsFree(t, here) then [here] else [])
  }

  lemma {:induction false} FreeInColumnAscends(t: Tiling, x: int, rows: int)
    ensures Ascending(FreeInColumn(t, x, rows))
    decreases rows
  {
    if rows > 0 {
      FreeInColumnAscends(t, x, rows - 1);
      var prev := FreeInColumn(t, x, rows - 1);
      var here := Position(x, rows - 1);
      var r := FreeInColumn(t, x, rows);
      assert r == prev + (if IsFree(t, here) then [here] else []);
      forall i, j | 0 <= i < j < |r|
        ensures r[i].y < r[j].y
      {
        assert r[i] == prev[i];
        if j < |prev| {
          assert r[j] == prev[j];
        } else {
          assert r[j] == here;
        }
      }
    }
  }

  /** The outer loop of `freePositions`: the free cells of the first
      `columns` columns, column by column. */
  function FreeInColumns(t: Tiling, columns: int): (r: seq<Position>)
    ensures forall i :: 0 <= i < |r| ==> r[i].x < columns && IsFree(t, r[i])
    ensures forall p: Position :: p.x < columns && IsFree(t, p) ==> p in r
    decreases columns
  {
    if columns <= 0 then []
    else FreeInColumns(t, columns - 1) + FreeInColumn(t, columns - 1, t.height)
  }

  /** Appending one column, listed by increasing y, after the columns to
      its left keeps the column-by-column order. */
  lemma ColumnMajorAppend(earlier: seq<Position>, column: seq<Position>, x: int)
    requires ColumnMajor(earlier) && Ascending(column)
    requires forall i :: 0 <= i < |earlier| ==> earlier[i].x < x
    requires forall i :: 0 <= i < |column| ==> column[i].x == x
    ensures ColumnMajor(earlier + column)
  {
    var r := earlier + column;
    forall i, j | 0 <= i < j < |r|
      ensures Before(r[i], r[j])
    {
      if j < |earlier| {
        assert r[i] == earlier[i] && r[j] == earlier[j];
      } else if i < |earlier| {
        assert r[i] == earlier[i] && r[j] == column[j - |earlier|];
      } else {
        assert r[i] == column[i - |earlier|] && r[j] == column[j - |earlier|];
      }
    }
  }

  lemma {:induction false} FreeInColumnsOrdered(t: Tiling, columns: int)
    ensures ColumnMajor(FreeInColumns(t, columns))
    decreases columns
  {
    if columns > 0 {
      FreeInColumnsOrdered(t, columns - 1);
      FreeInColumnAscends(t, columns - 1, t.height);
      ColumnMajorAppend(FreeInColumns(t, columns - 1), FreeInColumn(t, columns - 1, t.height), columns - 1);
    }
  }

  /** `freePositions`: exactly the free cells, each once. */
  function FreePositions(t: Tiling): (r: seq<Position>)
    ensures forall p :: p in r <==> IsFree(t, p)
    ensures Distinct(r)
  {
    var r := FreeInColumns(t, t.width);
    FreeInColumnsOrdered(t, t.width);
    assert forall i, j :: 0 <= i < j < |r| ==> Before(r[i], r[j]);
    r
  }

  /** `freePositions` lists the free cells column by column, by increasing y
      within a column. */
  lemma FreePositionsOrdered(t: Tiling)
    ensures ColumnMajor(FreePositions(t))
  {
    FreeInColumnsOrdered(t, t.width);
  }

  /** `isComplete`: as many occupied entries as grid cells. */
  function IsComplete(t: Tiling): (r: bool)
    ensures r <==> 2 * |t.tiles| == t.width * t.height
  {
    |Occupied(t.tiles)| == t.width * t.height
  }

  /** A tile the search could have placed: both cells in bounds and adjacent. */
  predicate WellPlaced(t: Tiling, tile: Tile) {
    InBounds(t, tile.first) && InBounds(t, tile.second) && Adjacent(tile.first, tile.second)
  }

  predicate NoOverlaps(tiles: seq<Tile>) {
    forall i, j :: 0 <= i < j < |tiles| ==> !Overlaps(tiles[i], tiles[j])
  }

  /** The invariant every tiling the engine builds keeps: every tile is an
      in-bounds adjacent pair and no two tiles overlap. */
  predicate WellFormed(t: Tiling) {
    (forall i :: 0 <= i < |t.tiles| ==> WellPlaced(t, t.tiles[i])) && NoOverlaps(t.tiles)
  }

  /** Each tile covers two distinct cells. */
  predicate Dominoes(tiles: seq<Tile>) {
    forall i :: 0 <= i < |tiles| ==> tiles[i].first != tiles[i].second
  }

  lemma OccupiedEntry(tiles: seq<Tile>, k: int)
    requires 0 <= k < 2 * |tiles|
    ensures Occupied(tiles)[k] in Endpoints(tiles[k / 2])
    ensures k % 2 == 0 ==> Occupied(tiles)[k] == tiles[k / 2].first
    ensures k % 2 == 1 ==> Occupied(tiles)[k] == tiles[k / 2].second
  {
  }

  lemma NonOverlappingCellsDistinct(tiles: seq<Tile>)
    requires NoOverlaps(tiles) && Dominoes(tiles)
    ensures Distinct(Occupied(tiles))
  {
    var r := Occupied(tiles);
    forall a, b | 0 <= a < b < |r|
      ensures r[a] != r[b]
    {
      OccupiedEntry(tiles, a);
      OccupiedEntry(tiles, b);
      var i, j := a / 2, b / 2;
      if i < j {
        assert !Overlaps(tiles[i], tiles[j]);
      } else {
        assert a == 2 * i && b == 2 * i + 1;
      }
    }
  }

  lemma DistinctCellsNonOverlapping(tiles: seq<Tile>)
    requires Distinct(Occupied(tiles))
    ensures NoOverlaps(tiles) && Dominoes(tiles)
  {
    var r := Occupied(tiles);
    forall i | 0 <= i < |tiles|
      ensures tiles[i].first != tiles[i].second
    {
      OccupiedEntry(tiles, 2 * i);
      OccupiedEntry(tiles, 2 * i + 1);
    }
    forall i, j | 0 <= i < j < |tiles|
      ensures !Overlaps(tiles[i], tiles[j])
    {
      OccupiedEntry(tiles, 2 * i);
      OccupiedEntry(tiles, 2 * i + 1);
      OccupiedEntry(tiles, 2 * j);
      OccupiedEntry(tiles, 2 * j + 1);
    }
  }

  /** Tiles with two distinct cells each overlap nowhere exactly when no
      cell is claimed twice. */
  lemma NoOverlapsIffCellsDistinct(tiles: seq<Tile>)
    ensures (NoOverlaps(tiles) && Dominoes(tiles)) <==> Distinct(Occupied(tiles))
  {
    if NoOverlaps(tiles) && Dominoes(tiles) {
      NonOverlappingCellsDistinct(tiles);
    }
    if Distinct(Occupied(tiles)) {
      DistinctCellsNonOverlapping(tiles);
    }
  }

  /** The cells of a `width` by `height` grid. */
  function Cells(width: int, height: int): set<Position> {
    set x, y | 0 <= x < width && 0 <= y < height :: Position(x, y)
  }

  /** `isInBounds` holds exactly for the cells of the grid. */
  lemma InBoundsIffGridCell(t: Tiling, p: Position)
    ensures InBounds(t, p) <==> p in Cells(t.width, t.height)
  {
    if InBounds(t, p) {
      assert p == Position(p.x, p.y);
    }
  }

  function Column(x: int, height: int): set<Position> {
    set y | 0 <= y < height :: Position(x, y)
  }

  lemma {:induction false} ColumnCardinality(x: int, height: nat)
    ensures |Column(x, height)| == height
  {
    if height > 0 {
      ColumnCardinality(x, height - 1);
      assert Column(x, height) == Column(x, height - 1) + {Position(x, height - 1)};
    }
  }

  /** A `width` by `height` grid has `width * height` cells. */
  lemma {:induction false} CellsCardinality(width: nat, height: nat)
    ensures |Cells(width, height)| == width * height
  {
    if width > 0 {
      CellsCardinality(width - 1, height);
      ColumnCardinality(width - 1, height);
      CellsSplit(width, height);
      assert width * height == (width - 1) * height + height;
    }
  }

  /** A grid is the grid one column narrower plus that last column. */
  lemma CellsSplit(width: int, height: int)
    requires width > 0
    ensures Cells(width, height) == Cells(width - 1, height) + Column(width - 1, height)
    ensures Cells(width - 1, height) * Column(width - 1, height) == {}
  {
    var left, column := Cells(width - 1, height), Column(width - 1, height);
    forall p | p in Cells(width, height)
      ensures p in left + column
    {
      if p.x < width - 1 {
        assert p == Position(p.x, p.y);
      }
    }
    forall p | p in left
      ensures p !in column
    {
    }
  }

  /** The free cells are the grid's cells that no tile covers. */
  lemma FreeIsGridLessOccupied(t: Tiling)
    ensures Elements(FreePositions(t)) == Cells(t.width, t.height) - Elements(Occupied(t.tiles))
  {
    forall p | p in Cells(t.width, t.height) - Elements(Occupied(t.tiles))
      ensures p in Elements(FreePositions(t))
    {
      OccupiedMeansClaimed(t.tiles, p);
    }
    forall p | p in Elements(FreePositions(t))
      ensures p in Cells(t.width, t.height) - Elements(Occupied(t.tiles))
    {
      OccupiedMeansClaimed(t.tiles, p);
      assert IsFree(t, p);
      assert p == Position(p.x, p.y);
    }
  }

  /** In a well-formed tiling every covered cell lies on the grid. */
  lemma OccupiedWithinGrid(t: Tiling)
    requires WellFormed(t)
    ensures Elements(Occupied(t.tiles)) <= Cells(t.width, t.height)
  {
    forall p | p in Elements(Occupied(t.tiles))
      ensures p in Cells(t.width, t.height)
    {
      OccupiedMeansClaimed(t.tiles, p);
      var i :| 0 <= i < |t.tiles| && p in Endpoints(t.tiles[i]);
      assert WellPlaced(t, t.tiles[i]);
      assert p == Position(p.x, p.y);
    }
  }

  /** In a well-formed tiling of a grid with non-negative sides, the free
      cells number the grid's cells less two per placed tile. */
  lemma FreeCount(t: Tiling)
    requires WellFormed(t) && t.width >= 0 && t.height >= 0
    ensures |FreePositions(t)| == t.width * t.height - 2 * |t.tiles|
  {
    var free := FreePositions(t);
    var occupied := Occupied(t.tiles);
    var grid := Cells(t.width, t.height);
    assert Dominoes(t.tiles) by {
      forall i | 0 <= i < |t.tiles|
        ensures t.tiles[i].first != t.tiles[i].second
      {
        assert WellPlaced(t, t.tiles[i]);
      }
    }
    NonOverlappingCellsDistinct(t.tiles);
    ElementsCardinality(free);
    ElementsCardinality(occupied);
    CellsCardinality(t.width, t.height);
    FreeIsGridLessOccupied(t);
    OccupiedWithinGrid(t);
    assert grid == (grid - Elements(occupied)) + Elements(occupied);
    assert (grid - Elements(occupied)) * Elements(occupied) == {};
  }

  /** For a well-formed tiling, `isComplete` holds exactly when no cell is free. */
  lemma CompleteIffNoFreeCell(t: Tiling)
    requires WellFormed(t) && t.width >= 0 && t.height >= 0
    ensures IsComplete(t) <==> FreePositions(t) == []
  {
    FreeCount(t);
  }
}
