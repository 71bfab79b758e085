/** `hasConnectedVacancy`: a stack-driven flood fill over the free cells,
    and its meaning, namely that every free cell can be reached from the
    first one through orthogonally adjacent free cells. */
module Vacancy {
  import opened Seqs
  import opened Geometry
  import opened Tilings

  /** `path` runs from `s` to `e` through cells of `region`, each step
      moving to an orthogonal neighbour. */
  ghost predicate Connects(region: seq<Position>, path: seq<Position>, s: Position, e: Position) {
    && |path| > 0 && path[0] == s && path[|path| - 1] == e
    && (forall i :: 0 <= i < |path| ==> path[i] in region)
    && (forall i :: 0 <= i < |path| - 1 ==> Adjacent(path[i], path[i + 1]))
  }

  ghost predicate Reachable(region: seq<Position>, s: Position, e: Position) {
    exists path :: Connects(region, path, s, e)
  }

  /** One more step through the region keeps a cell reachable. */
  lemma ReachableStep(region: seq<Position>, s: Position, p: Position, q: Position)
    requires Reachable(region, s, p)
    requires q in region && Adjacent(p, q)
    ensures Reachable(region, s, q)
  {
    var path :| Connects(region, path, s, p);
    assert Connects(region, path + [q], s, q);
  }

  /** The neighbours the fill pushes after visiting `current`: those in
      `free` and not yet visited, in the order they are probed. */
  function Unvisited(free: seq<Position>, visited: seq<Position>, current: Position): (r: seq<Position>)
    ensures forall i :: 0 <= i < |r| ==> r[i] in free && r[i] !in visited && Adjacent(current, r[i])
    ensures forall n :: Adjacent(current, n) && n in free && n !in visited ==> n in r
  {
    Filter(Neighbours(current), n => n in free && n !in visited)
  }

  /** The fill loop: pop the last entry of `toVisit`; skip it if it was
      visited already, otherwise visit it and push its unvisited free
      neighbours. The result is the final `visited` list: free cells only,
      none twice, holding everything visited or still to visit. */
  function Flood(free: seq<Position>, toVisit: seq<Position>, visited: seq<Position>): (r: seq<Position>)
    requires forall p :: p in toVisit ==> p in free
    requires forall p :: p in visited ==> p in free
    requires Distinct(visited)
    ensures Distinct(r)
    ensures forall p :: p in r ==> p in free
    ensures forall p :: p in visited ==> p in r
    ensures forall p :: p in toVisit ==> p in r
    decreases |free| - |visited|, |toVisit|
  {
    if |toVisit| == 0 then visited
    else
      var current := toVisit[|toVisit| - 1];
      var rest := toVisit[..|toVisit| - 1];
      assert toVisit == rest + [current];
      if current in visited then Flood(free, rest, visited)
      else
        var visited' := visited + [current];
        DistinctSubsetLength(visited', free);
        Flood(free, rest + Unvisited(free, visited', current), visited')
  }

  /** Every cell the fill visits is reachable from `s`, provided everything
      it starts from is. */
  lemma {:induction false} FloodStaysConnected(free: seq<Position>, toVisit: seq<Position>, visited: seq<Position>, s: Position)
    requires forall p :: p in toVisit ==> p in free
    requires forall p :: p in visited ==> p in free
    requires Distinct(visited)
    requires forall p :: p in toVisit ==> Reachable(free, s, p)
    requires forall p :: p in visited ==> Reachable(free, s, p)
    ensures forall p :: p in Flood(free, toVisit, visited) ==> Reachable(free, s, p)
    decreases |free| - |visited|, |toVisit|
  {
    if |toVisit| > 0 {
      var current := toVisit[|toVisit| - 1];
      var rest := toVisit[..|toVisit| - 1];
      assert toVisit == rest + [current];
      if current in visited {
        FloodStaysConnected(free, rest, visited, s);
      } else {
        var visited' := visited + [current];
        DistinctSubsetLength(visited', free);
        var pushed := Unvisited(free, visited', current);
        forall n | n in pushed
          ensures Reachable(free, s, n)
        {
          ReachableStep(free, s, current, n);
        }
        FloodStaysConnected(free, rest + pushed, visited', s);
      }
    }
  }

  /** Every free neighbour of a cell of `closed` is in `closed` or `pending`. */
  ghost predicate ClosedUpTo(free: seq<Position>, closed: seq<Position>, pending: seq<Position>) {
    forall v, n :: v in closed && n in free && Adjacent(v, n) ==> n in closed || n in pending
  }

  /** Once the stack is empty the visited cells are closed under free
      adjacency, provided every visited cell's free neighbours are visited
      or pending when the fill starts. */
  lemma {:induction false} FloodCloses(free: seq<Position>, toVisit: seq<Position>, visited: seq<Position>)
    requires forall p :: p in toVisit ==> p in free
    requires forall p :: p in visited ==> p in free
    requires Distinct(visited)
    requires ClosedUpTo(free, visited, toVisit)
    ensures ClosedUpTo(free, Flood(free, toVisit, visited), [])
    decreases |free| - |visited|, |toVisit|
  {
    if |toVisit| > 0 {
      var current := toVisit[|toVisit| - 1];
      var rest := toVisit[..|toVisit| - 1];
      assert toVisit == rest + [current];
      if current in visited {
        FloodCloses(free, rest, visited);
      } else {
        var visited' := visited + [current];
        DistinctSubsetLength(visited', free);
        var pushed := Unvisited(free, visited', current);
        assert ClosedUpTo(free, visited', rest + pushed);
        FloodCloses(free, rest + pushed, visited');
      }
    }
  }

  /** A set of cells closed under free adjacency holds everything reachable
      from any of its members. */
  lemma {:induction false} ClosedHoldsReachable(free: seq<Position>, closed: seq<Position>, path: seq<Position>, s: Position, e: Position)
    requires ClosedUpTo(free, closed, [])
    requires s in closed
    requires Connects(free, path, s, e)
    ensures e in closed
    decreases |path|
  {
    if |path| > 1 {
      var shorter := path[..|path| - 1];
      assert Connects(free, shorter, s, path[|path| - 2]);
      ClosedHoldsReachable(free, closed, shorter, s, path[|path| - 2]);
      assert Adjacent(path[|path| - 2], e);
    }
  }

  /** Seeded with one cell of a duplicate-free region, the fill visits as
      many cells as the region has exactly when the whole region is
      reachable from the seed. */
  lemma FloodFindsComponent(free: seq<Position>)
    requires Distinct(free) && |free| > 0
    ensures |Flood(free, [free[0]], [])| == |free|
        <==> forall p :: p in free ==> Reachable(free, free[0], p)
  {
    var s := free[0];
    var visited := Flood(free, [s], []);
    assert Connects(free, [s], s, s);
    FloodStaysConnected(free, [s], [], s);
    FloodCloses(free, [s], []);
    DistinctSameLength(visited, free);
    if forall p :: p in free ==> Reachable(free, s, p) {
      forall p | p in free
        ensures p in visited
      {
        var path :| Connects(free, path, s, p);
        ClosedHoldsReachable(free, visited, path, s, p);
      }
    }
  }

  /** `hasConnectedVacancy`: true when there is no free cell, and otherwise
      exactly when every free cell can be reached from the first free cell
      through orthogonally adjacent free cells. */
  function HasConnectedVacancy(t: Tiling): (r: bool)
    ensures r <==> (FreePositions(t) == [] ||
                    forall p :: p in FreePositions(t) ==> Reachable(FreePositions(t), FreePositions(t)[0], p))
  {
    var free := FreePositions(t);
    if |free| == 0 then true
    else
      FloodFindsComponent(free);
      |Flood(free, [free[0]], [])| == |free|
  }
}
