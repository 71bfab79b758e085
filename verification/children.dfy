/** `generateChildren`: the most-constrained-cell rule. The engine ranks the
    free cells, takes the first one with the fewest free neighbours, and
    makes one child tiling per free neighbour of that cell. */
module Children {
  import opened Seqs
  import opened Geometry
  import opened Tilings

  /** The free cells among the four probed around `p`, in probe order. */
  function FreeNeighbours(t: Tiling, p: Position): (r: seq<Position>)
    ensures |r| <= 4 && Distinct(r)
    ensures forall q :: q in r <==> Adjacent(p, q) && IsFree(t, q)
  {
    var r := Filter(Neighbours(p), q => IsFree(t, q));
    assert forall q :: q in Neighbours(p) && IsFree(t, q) ==> q in r by {
      forall q | q in Neighbours(p) && IsFree(t, q)
        ensures q in r
      {
        var i :| 0 <= i < 4 && Neighbours(p)[i] == q;
      }
    }
    r
  }

  /** The scan over the ranked free cells: the index of the first cell whose
      free-neighbour count is smallest. A later cell replaces the current
      best only when its count is strictly smaller. */
  function MostConstrained(t: Tiling, ranked: seq<Position>): (k: nat)
    requires |ranked| > 0
    ensures k < |ranked|
    ensures forall i :: 0 <= i < |ranked| ==>
      |FreeNeighbours(t, ranked[k])| <= |FreeNeighbours(t, ranked[i])|
    ensures forall i :: 0 <= i < k ==>
      |FreeNeighbours(t, ranked[k])| < |FreeNeighbours(t, ranked[i])|
    decreases |ranked|
  {
    if |ranked| == 1 then 0
    else
      var last := |ranked| - 1;
      var best := MostConstrained(t, ranked[..last]);
      if |FreeNeighbours(t, ranked[last])| < |FreeNeighbours(t, ranked[best])| then last else best
  }

  /** The cell the engine branches on. Whatever order the ranking puts the
      free cells in, it is free and no free cell has fewer free neighbours. */
  function BranchCell(t: Tiling, ranked: seq<Position>): (b: Position)
    requires FreePositions(t) != []
    requires multiset(ranked) == multiset(FreePositions(t))
    ensures IsFree(t, b)
    ensures forall p :: IsFree(t, p) ==> |FreeNeighbours(t, b)| <= |FreeNeighbours(t, p)|
  {
    assert FreePositions(t)[0] in multiset(ranked);
    var k := MostConstrained(t, ranked);
    assert ranked[k] in multiset(FreePositions(t));
    forall p | IsFree(t, p)
      ensures |FreeNeighbours(t, ranked[k])| <= |FreeNeighbours(t, p)|
    {
      assert p in multiset(ranked);
      var i :| 0 <= i < |ranked| && ranked[i] == p;
    }
    ranked[k]
  }

  /** `child` is `parent` with one more tile, appended at the end, that joins
      two orthogonally adjacent cells free in `parent`. */
  predicate PlacesOneTile(parent: Tiling, child: Tiling) {
    && child.width == parent.width && child.height == parent.height
    && |child.tiles| == |parent.tiles| + 1
    && child.tiles[..|parent.tiles|] == parent.tiles
    && IsFree(parent, child.tiles[|parent.tiles|].first)
    && IsFree(parent, child.tiles[|parent.tiles|].second)
    && Adjacent(child.tiles[|parent.tiles|].first, child.tiles[|parent.tiles|].second)
  }

  /** The tile a child adds to its parent. */
  function NewTile(parent: Tiling, child: Tiling): Tile
    requires PlacesOneTile(parent, child)
  {
    child.tiles[|parent.tiles|]
  }

  /** Placing a tile on two free adjacent cells keeps a tiling well formed. */
  lemma PlacingKeepsWellFormed(parent: Tiling, child: Tiling)
    requires WellFormed(parent) && PlacesOneTile(parent, child)
    ensures WellFormed(child)
  {
    var n := |parent.tiles|;
    var tile := NewTile(parent, child);
    forall i | 0 <= i < |child.tiles|
      ensures WellPlaced(child, child.tiles[i])
    {
      if i < n {
        assert child.tiles[i] == parent.tiles[i];
        assert WellPlaced(parent, parent.tiles[i]);
      }
    }
    forall i, j | 0 <= i < j < |child.tiles|
      ensures !Overlaps(child.tiles[i], child.tiles[j])
    {
      assert child.tiles[i] == parent.tiles[i];
      if j < n {
        assert child.tiles[j] == parent.tiles[j];
      } else {
        assert tile.first !in Endpoints(parent.tiles[i]);
        assert tile.second !in Endpoints(parent.tiles[i]);
      }
    }
  }

  /** One child per entry of `targets`: the parent plus the tile joining `b`
      to that entry. */
  function Extensions(t: Tiling, b: Position, targets: seq<Position>): (r: seq<Tiling>)
    requires IsFree(t, b)
    requires forall i :: 0 <= i < |targets| ==> IsFree(t, targets[i]) && Adjacent(b, targets[i])
    ensures |r| == |targets|
    ensures forall i :: 0 <= i < |r| ==> PlacesOneTile(t, r[i]) && NewTile(t, r[i]) == Tile(b, targets[i])
    ensures forall q :: q in targets ==> exists i :: 0 <= i < |r| && NewTile(t, r[i]).second == q
  {
    var r := seq(|targets|, i requires 0 <= i < |targets| =>
                 Tiling(t.width, t.height, t.tiles + [Tile(b, targets[i])]));
    assert forall i :: 0 <= i < |r| ==> r[i].tiles[..|t.tiles|] == t.tiles;
    assert forall i :: 0 <= i < |r| ==> NewTile(t, r[i]).second == targets[i];
    r
  }

  /** `generateChildren`, with the random ranking replaced by `ranked`, any
      permutation of the free cells. No free cell: no child. Otherwise one
      child per free neighbour of the branch cell, each the parent plus the
      tile joining the branch cell to that neighbour. */
  function GenerateChildren(t: Tiling, ranked: seq<Position>): (r: seq<Tiling>)
    requires multiset(ranked) == multiset(FreePositions(t))
    ensures FreePositions(t) == [] ==> r == []
    ensures |r| <= 4
    ensures forall i :: 0 <= i < |r| ==> PlacesOneTile(t, r[i])
    ensures forall i, j :: 0 <= i < j < |r| ==> NewTile(t, r[i]) != NewTile(t, r[j])
    ensures FreePositions(t) != [] ==>
      |r| == |FreeNeighbours(t, BranchCell(t, ranked))|
    ensures FreePositions(t) != [] ==>
      forall i :: 0 <= i < |r| ==> NewTile(t, r[i]).first == BranchCell(t, ranked)
    ensures FreePositions(t) != [] ==>
      forall q :: Adjacent(BranchCell(t, ranked), q) && IsFree(t, q) ==>
        exists i :: 0 <= i < |r| && NewTile(t, r[i]).second == q
  {
    if FreePositions(t) == [] then []
    else
      var best := BranchCell(t, ranked);
      Extensions(t, best, FreeNeighbours(t, best))
  }

  /** Children of a well-formed tiling are well formed: no overlap, every
      endpoint in bounds, every tile an adjacent pair. */
  lemma ChildrenKeepWellFormed(t: Tiling, ranked: seq<Position>)
    requires multiset(ranked) == multiset(FreePositions(t))
    requires WellFormed(t)
    ensures forall k :: 0 <= k < |GenerateChildren(t, ranked)| ==> WellFormed(GenerateChildren(t, ranked)[k])
  {
    var r := GenerateChildren(t, ranked);
    forall k | 0 <= k < |r|
      ensures WellFormed(r[k])
    {
      PlacingKeepsWellFormed(t, r[k]);
    }
  }

  /** How many children `generateChildren` makes is the smallest number of
      free neighbours any free cell has: a cell with that count exists and
      no free cell has fewer. */
  lemma ChildCountIsMinimum(t: Tiling, ranked: seq<Position>)
    requires multiset(ranked) == multiset(FreePositions(t))
    ensures forall p :: IsFree(t, p) ==> |GenerateChildren(t, ranked)| <= |FreeNeighbours(t, p)|
    ensures FreePositions(t) != [] ==>
      exists p :: IsFree(t, p) && |GenerateChildren(t, ranked)| == |FreeNeighbours(t, p)|
  {
    if FreePositions(t) != [] {
      assert IsFree(t, BranchCell(t, ranked));
    }
  }

  /** The ranking decides which cell is branched on but never how many
      children there are. */
  lemma ChildCountIndependentOfRanking(t: Tiling, ranked: seq<Position>, reranked: seq<Position>)
    requires multiset(ranked) == multiset(FreePositions(t))
    requires multiset(reranked) == multiset(FreePositions(t))
    ensures |GenerateChildren(t, ranked)| == |GenerateChildren(t, reranked)|
  {
    ChildCountIsMinimum(t, ranked);
    ChildCountIsMinimum(t, reranked);
    if FreePositions(t) != [] {
      var p :| IsFree(t, p) && |GenerateChildren(t, ranked)| == |FreeNeighbours(t, p)|;
      var q :| IsFree(t, q) && |GenerateChildren(t, reranked)| == |FreeNeighbours(t, q)|;
    }
  }

  /** A tiling has no children exactly when no cell is free or some free
      cell has no free neighbour. */
  lemma NoChildrenIffIsolatedCell(t: Tiling, ranked: seq<Position>)
    requires multiset(ranked) == multiset(FreePositions(t))
    ensures GenerateChildren(t, ranked) == [] <==>
      (FreePositions(t) == [] || exists p :: IsFree(t, p) && |FreeNeighbours(t, p)| == 0)
  {
    ChildCountIsMinimum(t, ranked);
  }
}
