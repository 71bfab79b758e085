/** Grid cells and dominoes: `Position` and `Tile` of the tiling engine. */
module Geometry {
  import opened Seqs

  /** A grid cell; copied by value, compared componentwise. */
  datatype Position = Position(x: int, y: int)

  /** `Position.isEqual`: both coordinates agree. */
  function IsEqual(p: Position, q: Position): (r: bool)
    ensures r <==> p == q
  {
    p.x == q.x && p.y == q.y
  }

  function Abs(n: int): nat {
    if n < 0 then -n else n
  }

  /** Orthogonal neighbours: Manhattan distance exactly one. */
  predicate Adjacent(p: Position, q: Position) {
    Abs(p.x - q.x) + Abs(p.y - q.y) == 1
  }

  /** The four cells the engine probes around `p`, in its order:
      decreasing x, increasing x, decreasing y, increasing y. They are not
      bounds-checked. */
  function Neighbours(p: Position): (r: seq<Position>)
    ensures |r| == 4 && Distinct(r)
    ensures forall q :: q in r <==> Adjacent(p, q)
  {
    [Position(p.x - 1, p.y), Position(p.x + 1, p.y),
     Position(p.x, p.y - 1), Position(p.x, p.y + 1)]
  }

  /** A domino: the two cells it covers. The TypeScript engine's tile also
      carries a random colour tag, which has no meaning for the search and
      is not modelled. */
  datatype Tile = Tile(first: Position, second: Position)

  function Endpoints(t: Tile): set<Position> {
    {t.first, t.second}
  }

  /** `Tile.overlaps`: some endpoint of `other` equals some endpoint of `t`
      (outer scan over `other`, inner scan over `t`). */
  function Overlaps(t: Tile, other: Tile): (r: bool)
    ensures r <==> exists p :: p in Endpoints(t) && p in Endpoints(other)
  {
    var sharesFirst := IsEqual(t.first, other.first) || IsEqual(t.second, other.first);
    var sharesSecond := IsEqual(t.first, other.second) || IsEqual(t.second, other.second);
    assert sharesFirst ==> other.first in Endpoints(t) && other.first in Endpoints(other);
    assert sharesSecond ==> other.second in Endpoints(t) && other.second in Endpoints(other);
    sharesFirst || sharesSecond
  }

  lemma OverlapsSymmetric(t: Tile, u: Tile)
    ensures Overlaps(t, u) == Overlaps(u, t)
  {
  }

  lemma OverlapsReflexive(t: Tile)
    ensures Overlaps(t, t)
  {
  }
}
