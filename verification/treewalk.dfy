/** The backtracking walk of `initTileGenerator` as an explicit state: an
    arena of search-tree nodes addressed by index (each node stores its
    parent's index), a cursor, and the program point the loop stands at
    between two actions. `Step` performs one action of the loop and consumes
    one `Choice`; the tile lists the generator would `yield` are reported as
    `emitted`. One pull of the generator corresponds to the silent steps up
    to and including the next step that yields, returns or fails. The two
    random choices of the engine are oracle parameters (`Choice`). */
module TreeWalk {
  import opened Seqs
  import opened Geometry
  import opened Tilings
  import opened Vacancy
  import opened Children

  datatype Option<T> = None | Some(value: T)

  /** `TileTreeWalkNode`. `parent` is `None` for the root only. */
  datatype Node = Node(parent: Option<nat>, tiling: Tiling, children: seq<nat>, visited: bool, viable: bool)

  /** Where the generator loop stands between two actions. */
  datatype Phase =
    | LoopHead   // the loop test, whether the cursor's tiling is complete, comes next
    | Climbing   // just backtracked: the connected-vacancy test comes next
    | Branching  // expansion of an unvisited node, then the viable-child pick

  datatype Walk = Walk(nodes: seq<Node>, cursor: nat, phase: Phase)

  /** A draw of `Math.random()`, the fraction `num / den` in [0, 1). */
  datatype Draw = Draw(num: nat, den: nat)
  type UnitDraw = d: Draw | d.num < d.den witness Draw(0, 1)

  /** The randomness one step may consume: a rank per cell, standing for
      the random tie-break plus negated distance from the centre, and a
      draw for picking a viable child. */
  datatype Choice = Choice(rank: Position -> int, draw: UnitDraw)

  datatype StepResult =
    | Running(walk: Walk, emitted: Option<seq<Tile>>)
    | Finished(tiles: seq<Tile>)
    | Exhausted

  /** `Math.floor(Math.random() * n)`: always an index below `n`. */
  function Pick(d: UnitDraw, n: nat): (i: nat)
    requires n > 0
    ensures i < n
  {
    ScaledFractionBelow(d.num, d.den, n);
    d.num * n / d.den
  }

  lemma ScaledFractionBelow(num: nat, den: nat, n: nat)
    requires num < den && n > 0
    ensures num * n / den < n
  {
    var q := num * n / den;
    assert q * den <= num * n;
    assert num * n < den * n by {
      assert (den - num) * n > 0;
    }
  }

  /** Node `i` hangs below an earlier node and its tiling is its parent's
      plus one tile; the root (node 0) starts with no tile. */
  predicate Linked(nodes: seq<Node>, i: nat)
    requires i < |nodes|
  {
    if i == 0 then nodes[0].parent == None && nodes[0].tiling.tiles == []
    else
      && nodes[i].parent.Some?
      && nodes[i].parent.value < i
      && PlacesOneTile(nodes[nodes[i].parent.value].tiling, nodes[i].tiling)
  }

  /** Node `i` has children only once visited, and each of them is a later
      node whose parent is `i`. */
  predicate ChildrenLinked(nodes: seq<Node>, i: nat)
    requires i < |nodes|
  {
    && (!nodes[i].visited ==> nodes[i].children == [])
    && forall k :: 0 <= k < |nodes[i].children| ==>
         i < nodes[i].children[k] < |nodes| && nodes[nodes[i].children[k]].parent == Some(i)
  }

  /** The invariant of the walk. */
  predicate Valid(w: Walk) {
    && 0 < |w.nodes|
    && w.cursor < |w.nodes|
    && (forall i :: 0 <= i < |w.nodes| ==> Linked(w.nodes, i))
    && (forall i :: 0 <= i < |w.nodes| ==> ChildrenLinked(w.nodes, i))
    && (forall i :: 0 <= i < |w.nodes| ==> WellFormed(w.nodes[i].tiling))
    && (forall i :: 0 <= i < |w.nodes| ==>
          w.nodes[i].tiling.width == w.nodes[0].tiling.width &&
          w.nodes[i].tiling.height == w.nodes[0].tiling.height)
  }

  /** How the arena may change: nodes are only appended, every node keeps
      its parent and its tiling, `viable` only goes from true to false, and
      a visited node stays visited with the same children. */
  predicate Grows(a: seq<Node>, b: seq<Node>) {
    && |a| <= |b|
    && forall i :: 0 <= i < |a| ==>
         && b[i].parent == a[i].parent
         && b[i].tiling == a[i].tiling
         && (b[i].viable ==> a[i].viable)
         && (a[i].visited ==> b[i].visited && b[i].children == a[i].children)
  }

  lemma GrowsTransitive(a: seq<Node>, b: seq<Node>, c: seq<Node>)
    requires Grows(a, b) && Grows(b, c)
    ensures Grows(a, c)
  {
  }

  /** `b` is `a` with one tile appended, or `a` with its last tile dropped. */
  predicate OneTileApart(a: seq<Tile>, b: seq<Tile>) {
    || (|b| == |a| + 1 && b[..|a|] == a)
    || (|a| == |b| + 1 && a[..|b|] == b)
  }

  function CursorTiling(w: Walk): Tiling
    requires w.cursor < |w.nodes|
  {
    w.nodes[w.cursor].tiling
  }

  /** Marking the cursor's node as not viable; nothing else changes. */
  function MarkDead(w: Walk): (r: Walk)
    requires Valid(w)
    ensures Valid(r) && Grows(w.nodes, r.nodes)
    ensures r.nodes[w.cursor] == w.nodes[w.cursor].(viable := false)
    ensures r.cursor == w.cursor && r.phase == w.phase && |r.nodes| == |w.nodes|
    ensures !r.nodes[r.cursor].viable
    ensures forall i :: 0 <= i < |w.nodes| && i != w.cursor ==> r.nodes[i] == w.nodes[i]
  {
    var nodes := w.nodes[w.cursor := w.nodes[w.cursor].(viable := false)];
    ViabilityIsIrrelevant(w, nodes);
    w.(nodes := nodes)
  }

  /** The invariant does not depend on the `viable` flags. */
  lemma ViabilityIsIrrelevant(w: Walk, nodes: seq<Node>)
    requires Valid(w) && |nodes| == |w.nodes|
    requires forall i :: 0 <= i < |nodes| ==> nodes[i] == w.nodes[i].(viable := nodes[i].viable)
    ensures Valid(w.(nodes := nodes))
  {
    forall i | 0 <= i < |nodes|
      ensures Linked(nodes, i) && ChildrenLinked(nodes, i)
    {
      assert Linked(w.nodes, i) && ChildrenLinked(w.nodes, i);
      if i > 0 {
        var p := w.nodes[i].parent.value;
        assert nodes[p].tiling == w.nodes[p].tiling;
      }
      forall k | 0 <= k < |nodes[i].children|
        ensures nodes[nodes[i].children[k]].parent == Some(i)
      {
        assert w.nodes[w.nodes[i].children[k]].parent == Some(i);
      }
    }
    assert forall i :: 0 <= i < |nodes| ==> nodes[i].tiling == w.nodes[i].tiling;
  }

  /** What the backtracking statements end in: the cursor moved to the
      parent with the parent's tiles yielded, or an exception. */
  datatype Backtracked = Moved(cursor: nat, emitted: seq<Tile>) | Threw(error: Thrown)
  datatype Thrown = NoCompleteTilingFound | NullDereference

  /** Backtracking as intended: the cursor moves to its parent and the
      parent's tiles are yielded; at the root, which has no parent, the
      walk ends with the "no complete tiling found" error. */
  function Backtrack(nodes: seq<Node>, cursor: nat): (r: Backtracked)
    requires cursor < |nodes|
    requires forall i :: 0 <= i < |nodes| ==> Linked(nodes, i)
    ensures r.Threw? <==> cursor == 0
    ensures r.Threw? ==> r.error == NoCompleteTilingFound
    ensures r.Moved? ==> nodes[cursor].parent == Some(r.cursor)
    ensures r.Moved? ==> r.cursor < cursor && r.emitted == nodes[r.cursor].tiling.tiles
    ensures r.Moved? ==> PlacesOneTile(nodes[r.cursor].tiling, nodes[cursor].tiling)
  {
    assert Linked(nodes, cursor);
    match nodes[cursor].parent
    case None => Threw(NoCompleteTilingFound)
    case Some(p) => Moved(p, nodes[p].tiling.tiles)
  }

  /** Backtracking in the order the TypeScript engine has it: the non-null
      assertion on the parent does not stop a missing parent, and the yield
      of the new cursor's tiles comes before the null guard, so
      backtracking from the root dereferences null instead of reporting
      that no tiling exists. */
  function BacktrackAsWritten(nodes: seq<Node>, cursor: nat): (r: Backtracked)
    requires cursor < |nodes|
    requires forall i :: 0 <= i < |nodes| ==> Linked(nodes, i)
    ensures r.Threw? <==> cursor == 0
    ensures r.Threw? ==> r.error == NullDereference
    ensures r.Moved? ==> r == Backtrack(nodes, cursor)
  {
    assert Linked(nodes, cursor);
    match nodes[cursor].parent
    case None => Threw(NullDereference)
    case Some(p) => Moved(p, nodes[p].tiling.tiles)
  }

  /** Backtracking as a step: the cursor moves to the parent, which the
      generator yields, and the connected-vacancy test comes next. */
  function Retreat(w: Walk): (r: StepResult)
    requires Valid(w)
    ensures r.Exhausted? <==> w.cursor == 0
    ensures r.Running? ==> w.nodes[w.cursor].parent == Some(r.walk.cursor)
    ensures r.Running? ==> Valid(r.walk) && r.walk.nodes == w.nodes && r.walk.phase == Climbing
    ensures r.Running? ==> r.emitted == Some(CursorTiling(r.walk).tiles)
    ensures r.Running? ==> PlacesOneTile(CursorTiling(r.walk), CursorTiling(w))
    ensures r.Finished? ==> false
  {
    match Backtrack(w.nodes, w.cursor)
    case Moved(p, tiles) => Running(Walk(w.nodes, p, Climbing), Some(tiles))
    case Threw(_) => Exhausted
  }

  /** The viable entries of `children`, in order, as the engine filters the
      cursor's children before picking one. */
  function ViableChildren(nodes: seq<Node>, children: seq<nat>): (r: seq<nat>)
    ensures |r| <= |children|
    ensures forall k :: 0 <= k < |r| ==> r[k] in children && r[k] < |nodes| && nodes[r[k]].viable
    ensures forall k :: 0 <= k < |children| && children[k] < |nodes| && nodes[children[k]].viable ==>
      children[k] in r
  {
    Filter(children, (c: nat) => c < |nodes| && nodes[c].viable)
  }

  /** The arena after the engine stores new child nodes on the cursor and
      flags it visited: the cursor is marked visited and one viable,
      unvisited node per tiling of `tilings` is appended as its child. */
  function Attach(w: Walk, tilings: seq<Tiling>): (nodes: seq<Node>)
    requires w.cursor < |w.nodes|
    ensures |nodes| == |w.nodes| + |tilings|
    ensures nodes[w.cursor] == w.nodes[w.cursor].(children := nodes[w.cursor].children, visited := true)
    ensures |nodes[w.cursor].children| == |tilings|
    ensures forall k :: 0 <= k < |tilings| ==> nodes[w.cursor].children[k] == |w.nodes| + k
    ensures forall i :: 0 <= i < |w.nodes| && i != w.cursor ==> nodes[i] == w.nodes[i]
    ensures forall i :: |w.nodes| <= i < |nodes| ==>
      nodes[i] == Node(Some(w.cursor), tilings[i - |w.nodes|], [], false, true)
  {
    var n := |w.nodes|;
    var added := seq(|tilings|, k requires 0 <= k < |tilings| => Node(Some(w.cursor), tilings[k], [], false, true));
    var indices := seq(|tilings|, (k: nat) => n + k);
    w.nodes[w.cursor := w.nodes[w.cursor].(children := indices, visited := true)] + added
  }

  /** Attaching well-formed one-tile extensions of the cursor's tiling as
      the children of an unvisited cursor keeps the invariant. */
  lemma AttachKeepsValid(w: Walk, tilings: seq<Tiling>)
    requires Valid(w) && !w.nodes[w.cursor].visited
    requires forall k :: 0 <= k < |tilings| ==> PlacesOneTile(CursorTiling(w), tilings[k]) && WellFormed(tilings[k])
    ensures Valid(w.(nodes := Attach(w, tilings)))
  {
    AttachKeepsLinks(w, tilings);
    AttachKeepsChildLinks(w, tilings);
    AttachKeepsGrid(w, tilings);
  }

  /** Every node of the attached arena still hangs below an earlier node,
      one tile further on. */
  lemma AttachKeepsLinks(w: Walk, tilings: seq<Tiling>)
    requires Valid(w)
    requires forall k :: 0 <= k < |tilings| ==> PlacesOneTile(CursorTiling(w), tilings[k])
    ensures forall i :: 0 <= i < |Attach(w, tilings)| ==> Linked(Attach(w, tilings), i)
  {
    var nodes := Attach(w, tilings);
    var n := |w.nodes|;
    assert forall i :: 0 <= i < n ==> nodes[i].tiling == w.nodes[i].tiling && nodes[i].parent == w.nodes[i].parent;
    forall i | 0 <= i < |nodes|
      ensures Linked(nodes, i)
    {
      if i < n {
        assert Linked(w.nodes, i);
        if i > 0 {
          var p := w.nodes[i].parent.value;
          assert nodes[p].tiling == w.nodes[p].tiling;
        }
      } else {
        assert nodes[i] == Node(Some(w.cursor), tilings[i - n], [], false, true);
      }
    }
  }

  /** Every child recorded in the attached arena is a later node whose
      parent is the node recording it. */
  lemma AttachKeepsChildLinks(w: Walk, tilings: seq<Tiling>)
    requires Valid(w) && !w.nodes[w.cursor].visited
    ensures forall i :: 0 <= i < |Attach(w, tilings)| ==> ChildrenLinked(Attach(w, tilings), i)
  {
    var nodes := Attach(w, tilings);
    var n := |w.nodes|;
    forall i | 0 <= i < |nodes|
      ensures ChildrenLinked(nodes, i)
    {
      if i < n && i != w.cursor {
        assert ChildrenLinked(w.nodes, i);
        forall k | 0 <= k < |nodes[i].children|
          ensures nodes[nodes[i].children[k]].parent == Some(i)
        {
          assert w.nodes[w.nodes[i].children[k]].parent == Some(i);
        }
      } else if i == w.cursor {
        forall k | 0 <= k < |nodes[i].children|
          ensures i < nodes[i].children[k] < |nodes| && nodes[nodes[i].children[k]].parent == Some(i)
        {
          assert nodes[n + k] == Node(Some(w.cursor), tilings[k], [], false, true);
        }
      }
    }
  }

  /** Every tiling of the attached arena is well formed on the root's grid. */
  lemma AttachKeepsGrid(w: Walk, tilings: seq<Tiling>)
    requires Valid(w)
    requires forall k :: 0 <= k < |tilings| ==> PlacesOneTile(CursorTiling(w), tilings[k]) && WellFormed(tilings[k])
    ensures forall i :: 0 <= i < |Attach(w, tilings)| ==>
      && WellFormed(Attach(w, tilings)[i].tiling)
      && Attach(w, tilings)[i].tiling.width == Attach(w, tilings)[0].tiling.width
      && Attach(w, tilings)[i].tiling.height == Attach(w, tilings)[0].tiling.height
  {
    var nodes := Attach(w, tilings);
    var n := |w.nodes|;
    forall i | 0 <= i < |nodes|
      ensures WellFormed(nodes[i].tiling)
      ensures nodes[i].tiling.width == nodes[0].tiling.width
      ensures nodes[i].tiling.height == nodes[0].tiling.height
    {
      if i >= n {
        assert nodes[i] == Node(Some(w.cursor), tilings[i - n], [], false, true);
      }
    }
  }

  /** The child tilings `generateChildren` makes from `t`, with the free
      cells ranked by `rank`. */
  function ChildTilings(t: Tiling, rank: Position -> int): (r: seq<Tiling>)
    requires WellFormed(t)
    ensures forall k :: 0 <= k < |r| ==> PlacesOneTile(t, r[k]) && WellFormed(r[k])
  {
    var ranked := SortByKey(FreePositions(t), rank);
    var r := GenerateChildren(t, ranked);
    ChildrenKeepWellFormed(t, ranked);
    r
  }

  lemma AttachGrows(w: Walk, tilings: seq<Tiling>)
    requires w.cursor < |w.nodes| && !w.nodes[w.cursor].visited
    ensures Grows(w.nodes, Attach(w, tilings))
  {
  }

  /** Expanding a cursor not visited before: generate its children under
      the ranking `rank` and attach them. */
  function Expand(w: Walk, rank: Position -> int): (r: Walk)
    requires Valid(w) && !w.nodes[w.cursor].visited
    ensures Valid(r) && Grows(w.nodes, r.nodes)
    ensures r.cursor == w.cursor && r.phase == w.phase
    ensures r.nodes == Attach(w, ChildTilings(CursorTiling(w), rank))
    ensures r.nodes[r.cursor].visited
    ensures |r.nodes| == |w.nodes| + |r.nodes[r.cursor].children|
  {
    var tilings := ChildTilings(CursorTiling(w), rank);
    AttachKeepsValid(w, tilings);
    AttachGrows(w, tilings);
    w.(nodes := Attach(w, tilings))
  }

  /** One action of the generator loop, with root exhaustion reported as
      `Exhausted`. */
  function Step(w: Walk, c: Choice): (r: StepResult)
    requires Valid(w)
    ensures r.Running? ==> Valid(r.walk) && Grows(w.nodes, r.walk.nodes)
    ensures r.Running? && r.emitted.Some? ==>
      r.emitted.value == CursorTiling(r.walk).tiles && OneTileApart(CursorTiling(w).tiles, r.emitted.value)
    ensures r.Finished? ==> r.tiles == CursorTiling(w).tiles && IsComplete(CursorTiling(w))
    ensures r.Exhausted? ==> w.cursor == 0 && w.phase != Branching
    ensures r.Running? && |r.walk.nodes| > |w.nodes| ==>
      !w.nodes[w.cursor].visited && r.walk.nodes[w.cursor].visited
    ensures r.Running? && r.emitted.None? ==> r.walk.cursor == w.cursor
  {
    var node := w.nodes[w.cursor];
    match w.phase
    case LoopHead =>
      if IsComplete(node.tiling) then Finished(node.tiling.tiles)
      else if !node.viable then Retreat(w)
      else Running(w.(phase := Branching), None)
    case Climbing =>
      if HasConnectedVacancy(node.tiling) then Running(w.(phase := Branching), None)
      else
        var dead := MarkDead(w);
        Retreat(dead)
    case Branching =>
      if !node.visited then Running(Expand(w, c.rank), None)
      else
        var viable := ViableChildren(w.nodes, node.children);
        if |viable| == 0 then Running(MarkDead(w).(phase := LoopHead), None)
        else
          var child := viable[Pick(c.draw, |viable|)];
          assert ChildrenLinked(w.nodes, w.cursor);
          assert Linked(w.nodes, child);
          Running(Walk(w.nodes, child, LoopHead), Some(w.nodes[child].tiling.tiles))
  }

  /** Which action a step takes at each program point. At the loop head, a
      complete cursor tiling ends the walk, a dead cursor backtracks, and
      otherwise branching comes next. After backtracking, a connected
      vacancy leads to branching, and otherwise the cursor is marked dead
      and the walk backtracks again. When branching, an unvisited cursor is
      expanded; a visited cursor with no viable child is marked dead and
      the loop head comes next; otherwise the walk descends into the viable
      child the draw picks and yields its tiles. */
  lemma StepActions(w: Walk, c: Choice)
    requires Valid(w)
    ensures w.phase == LoopHead ==> (Step(w, c).Finished? <==> IsComplete(CursorTiling(w)))
    ensures w.phase == LoopHead && !IsComplete(CursorTiling(w)) ==>
      Step(w, c) == if w.nodes[w.cursor].viable then Running(w.(phase := Branching), None) else Retreat(w)
    ensures w.phase == Climbing ==>
      (HasConnectedVacancy(CursorTiling(w)) <==> Step(w, c) == Running(w.(phase := Branching), None))
    ensures w.phase == Climbing && !HasConnectedVacancy(CursorTiling(w)) ==> Step(w, c) == Retreat(MarkDead(w))
    ensures w.phase == Branching && !w.nodes[w.cursor].visited ==> Step(w, c) == Running(Expand(w, c.rank), None)
    ensures w.phase == Branching && w.nodes[w.cursor].visited ==>
      var viable := ViableChildren(w.nodes, w.nodes[w.cursor].children);
      (viable == [] <==> Step(w, c) == Running(MarkDead(w).(phase := LoopHead), None))
    ensures w.phase == Branching && w.nodes[w.cursor].visited ==>
      var viable := ViableChildren(w.nodes, w.nodes[w.cursor].children);
      viable != [] ==>
        var child := viable[Pick(c.draw, |viable|)];
        && child in w.nodes[w.cursor].children && w.nodes[child].viable
        && Step(w, c) == Running(Walk(w.nodes, child, LoopHead), Some(w.nodes[child].tiling.tiles))
    ensures w.phase == Branching && w.nodes[w.cursor].viable ==>
      Step(w, c).Running? &&
      (!Step(w, c).walk.nodes[w.cursor].viable ==>
         w.nodes[w.cursor].visited && ViableChildren(w.nodes, w.nodes[w.cursor].children) == [])
  {
  }

  /** The generator's first state: a root node holding the empty tiling,
      at the loop head. The empty tile list is yielded before it. */
  function Start(width: int, height: int): (w: Walk)
    ensures Valid(w)
    ensures |w.nodes| == 1 && w.cursor == 0 && w.phase == LoopHead
    ensures !w.nodes[0].visited && w.nodes[0].viable && w.nodes[0].children == []
    ensures CursorTiling(w) == Tiling(width, height, [])
  {
    var w := Walk([Node(None, Tiling(width, height, []), [], false, true)], 0, LoopHead);
    assert Linked(w.nodes, 0);
    w
  }

  function Emission(e: Option<seq<Tile>>): seq<seq<Tile>> {
    match e
    case None => []
    case Some(tiles) => [tiles]
  }

  /** The tile list shown last: the latest of `emitted`, or `start`. */
  function LastShown(start: seq<Tile>, emitted: seq<seq<Tile>>): seq<Tile> {
    if |emitted| == 0 then start else emitted[|emitted| - 1]
  }

  /** Each tile list of `emitted` is one tile apart from the one before it,
      the first from `start`. */
  ghost predicate Chained(start: seq<Tile>, emitted: seq<seq<Tile>>) {
    && (|emitted| > 0 ==> OneTileApart(start, emitted[0]))
    && (forall i :: 0 <= i < |emitted| - 1 ==> OneTileApart(emitted[i], emitted[i + 1]))
  }

  /** Every tile list of `emitted` is a well-formed tiling of the grid. */
  predicate OnGrid(width: int, height: int, emitted: seq<seq<Tile>>) {
    forall k :: 0 <= k < |emitted| ==> WellFormed(Tiling(width, height, emitted[k]))
  }

  /** Putting the yield of one step in front of a chain that starts where
      that step left the cursor. */
  lemma ChainPrepend(start: seq<Tile>, mid: seq<Tile>, e: Option<seq<Tile>>, rest: seq<seq<Tile>>)
    requires e.None? ==> mid == start
    requires e.Some? ==> e.value == mid && OneTileApart(start, mid)
    requires Chained(mid, rest)
    ensures Chained(start, Emission(e) + rest)
    ensures LastShown(start, Emission(e) + rest) == LastShown(mid, rest)
  {
    var all := Emission(e) + rest;
    if e.Some? {
      assert Emission(e) == [mid];
      assert |all| == |rest| + 1;
      forall i | 0 <= i < |all| - 1
        ensures OneTileApart(all[i], all[i + 1])
      {
        assert all[i + 1] == rest[i];
        assert all[i] == if i == 0 then mid else rest[i - 1];
      }
    } else {
      assert all == rest;
    }
  }

  /** Putting the yield of one step, itself a well-formed tiling of the
      grid, in front of a list of such tilings. */
  lemma OnGridPrepend(width: int, height: int, e: Option<seq<Tile>>, rest: seq<seq<Tile>>)
    requires e.Some? ==> WellFormed(Tiling(width, height, e.value))
    requires OnGrid(width, height, rest)
    ensures OnGrid(width, height, Emission(e) + rest)
  {
    var all := Emission(e) + rest;
    assert forall k :: 0 <= k < |rest| ==> all[|all| - |rest| + k] == rest[k];
  }

  /** The cursor's tiling of a valid walk is a well-formed tiling of the
      root's grid. */
  lemma CursorOnGrid(w: Walk)
    requires Valid(w)
    ensures WellFormed(Tiling(w.nodes[0].tiling.width, w.nodes[0].tiling.height, CursorTiling(w).tiles))
  {
    assert WellFormed(w.nodes[w.cursor].tiling);
  }

  /** What a consumer pulling repeatedly sees: the tile lists yielded, in
      order, and how the last step ended. */
  datatype Trace = Trace(emitted: seq<seq<Tile>>, last: StepResult)

  /** At most `|choices|` steps from `w`, stopping early on `Finished` or
      `Exhausted`. Every yielded list is a well-formed tiling of the grid,
      consecutive yields differ by one tile, and a finished walk returns
      the complete tiling it yielded last. */
  function Run(w: Walk, choices: seq<Choice>): (r: Trace)
    requires Valid(w)
    ensures r.last.Running? ==> Valid(r.last.walk) && Grows(w.nodes, r.last.walk.nodes)
    ensures r.last.Running? ==> CursorTiling(r.last.walk).tiles == LastShown(CursorTiling(w).tiles, r.emitted)
    ensures OnGrid(w.nodes[0].tiling.width, w.nodes[0].tiling.height, r.emitted)
    ensures Chained(CursorTiling(w).tiles, r.emitted)
    ensures r.last.Finished? ==> r.last.tiles == LastShown(CursorTiling(w).tiles, r.emitted)
    ensures r.last.Finished? ==>
      var done := Tiling(w.nodes[0].tiling.width, w.nodes[0].tiling.height, r.last.tiles);
      IsComplete(done) && WellFormed(done)
    decreases |choices|
  {
    CursorOnGrid(w);
    if |choices| == 0 then Trace([], Running(w, None))
    else
      match Step(w, choices[0])
      case Running(next, emitted) =>
        var rest := Run(next, choices[1..]);
        CursorOnGrid(next);
        ChainPrepend(CursorTiling(w).tiles, CursorTiling(next).tiles, emitted, rest.emitted);
        var all := Emission(emitted) + rest.emitted;
        assert next.nodes[0].tiling == w.nodes[0].tiling;
        OnGridPrepend(w.nodes[0].tiling.width, w.nodes[0].tiling.height, emitted, rest.emitted);
        GrowsTransitive(w.nodes, next.nodes, if rest.last.Running? then rest.last.walk.nodes else next.nodes);
        Trace(all, rest.last)
      case Finished(tiles) => Trace([], Finished(tiles))
      case Exhausted => Trace([], Exhausted)
  }

  /** `initTileGenerator(width, height)` driven by `choices`: the empty tile
      list first, then whatever the steps yield. Everything yielded is a
      well-formed tiling of the `width` by `height` grid, and a tiling
      returned at the end is complete and leaves no cell free. */
  function Generate(width: int, height: int, choices: seq<Choice>): (r: Trace)
    ensures |r.emitted| > 0 && r.emitted[0] == []
    ensures OnGrid(width, height, r.emitted)
    ensures Chained([], r.emitted[1..])
    ensures r.last.Finished? ==> IsComplete(Tiling(width, height, r.last.tiles))
    ensures r.last.Finished? ==> WellFormed(Tiling(width, height, r.last.tiles))
    ensures r.last.Finished? ==> FreePositions(Tiling(width, height, r.last.tiles)) == []
  {
    var run := Run(Start(width, height), choices);
    var r := Trace([[]] + run.emitted, run.last);
    assert r.emitted[1..] == run.emitted;
    assert r.last.Finished? ==> FreePositions(Tiling(width, height, r.last.tiles)) == [] by {
      if r.last.Finished? {
        var done := Tiling(width, height, r.last.tiles);
        if width >= 0 && height >= 0 {
          CompleteIffNoFreeCell(done);
        }
      }
    }
    r
  }

  /** A step that yields nothing hands the remaining choices on unchanged. */
  lemma RunSilentStep(w: Walk, c: Choice, next: Walk, choices: seq<Choice>)
    requires Valid(w) && Step(w, c) == Running(next, None)
    ensures Run(w, [c] + choices) == Run(next, choices)
  {
    assert ([c] + choices)[1..] == choices;
  }

  /** A step that yields `tiles` puts them in front of what the remaining
      choices yield. */
  lemma RunEmittingStep(w: Walk, c: Choice, next: Walk, tiles: seq<Tile>, choices: seq<Choice>)
    requires Valid(w) && Step(w, c) == Running(next, Some(tiles))
    ensures Run(w, [c] + choices) == Trace([tiles] + Run(next, choices).emitted, Run(next, choices).last)
  {
    assert ([c] + choices)[1..] == choices;
  }

  /** A step that returns or gives up ends the run, whatever choices are
      left. */
  lemma RunHalts(w: Walk, c: Choice, choices: seq<Choice>)
    requires Valid(w) && !Step(w, c).Running?
    ensures Run(w, [c] + choices) == Trace([], Step(w, c))
  {
    assert ([c] + choices)[0] == c;
  }

  /** The walk after the first step on a grid with cells: the root, still
      unvisited, about to be expanded. */
  function Entered(width: int, height: int): (w: Walk)
    ensures Valid(w) && w.cursor == 0 && w.phase == Branching
    ensures |w.nodes| == 1 && !w.nodes[0].visited && w.nodes[0].viable
    ensures CursorTiling(w) == Tiling(width, height, [])
  {
    Start(width, height).(phase := Branching)
  }

  /** On a grid with at least one cell the first step enters the branching
      phase without yielding anything. */
  lemma EnterStep(width: int, height: int, c: Choice)
    requires width * height != 0
    ensures Step(Start(width, height), c) == Running(Entered(width, height), None)
  {
    assert !IsComplete(Tiling(width, height, []));
  }

  /** An unvisited cursor in the branching phase is expanded, silently. */
  lemma ExpandStep(w: Walk, c: Choice)
    requires Valid(w) && w.phase == Branching && !w.nodes[w.cursor].visited
    ensures Step(w, c) == Running(Expand(w, c.rank), None)
  {
  }

  /** No domino fits on a 1 by 1 grid. */
  lemma NoChildOnSingleCell(rank: Position -> int)
    ensures ChildTilings(Tiling(1, 1, []), rank) == []
  {
  }

  /** The root of the 1 by 1 grid, expanded. */
  function SingleCellExpanded(): Walk {
    Walk([Node(None, Tiling(1, 1, []), [], true, true)], 0, Branching)
  }

  /** The walk on a 1 by 1 grid after three steps: the root, expanded
      without children, marked dead, back at the loop head. */
  function SingleCellDeadEnd(): Walk {
    Walk([Node(None, Tiling(1, 1, []), [], true, false)], 0, LoopHead)
  }

  /** The second step on a 1 by 1 grid expands the root into no children. */
  lemma SingleCellExpands(c: Choice)
    ensures Step(Entered(1, 1), c) == Running(SingleCellExpanded(), None)
  {
    ExpandStep(Entered(1, 1), c);
    NoChildOnSingleCell(c.rank);
    assert Attach(Entered(1, 1), []) == SingleCellExpanded().nodes;
  }

  /** The third step on a 1 by 1 grid finds the childless root a dead end. */
  lemma SingleCellDies(c: Choice)
    ensures Valid(SingleCellExpanded())
    ensures Step(SingleCellExpanded(), c) == Running(SingleCellDeadEnd(), None)
  {
    assert Linked(SingleCellExpanded().nodes, 0);
    assert ViableChildren(SingleCellExpanded().nodes, []) == [];
  }

  /** Three steps in a row that yield nothing hand the remaining choices on
      to the walk they reach. */
  lemma RunThreeSilentSteps(w0: Walk, w1: Walk, w2: Walk, w3: Walk, c1: Choice, c2: Choice, c3: Choice, rest: seq<Choice>)
    requires Valid(w0) && Step(w0, c1) == Running(w1, None)
    requires Valid(w1) && Step(w1, c2) == Running(w2, None)
    requires Valid(w2) && Step(w2, c3) == Running(w3, None)
    ensures Valid(w3)
    ensures Run(w0, [c1, c2, c3] + rest) == Run(w3, rest)
  {
    RunSilentStep(w2, c3, w3, rest);
    RunTwoSilentSteps(w0, w1, w2, c1, c2, [c3] + rest);
    SplitThird(c1, c2, c3, rest);
  }

  /** Splitting the first entry off a list that starts with two. */
  lemma SplitFirst<T>(a: T, b: T, rest: seq<T>)
    ensures [a, b] + rest == [a] + ([b] + rest)
  {
  }

  /** Splitting the third entry off a list that starts with three. */
  lemma SplitThird<T>(a: T, b: T, c: T, rest: seq<T>)
    ensures [a, b, c] + rest == [a, b] + ([c] + rest)
  {
  }

  /** Two ways of assembling a list of four. */
  lemma JoinFour<T>(a: T, b: T, c: T, d: T)
    ensures [a, b, c] + [d] == [a, b, c, d]
    ensures [a, b] + [c, d] == [a, b, c, d]
  {
  }

  /** Assembling a list of two, and a list of one with nothing after it. */
  lemma JoinTwo<T>(a: T, b: T)
    ensures [a] + [b] == [a, b] && [b] + [] == [b]
  {
  }

  /** Two steps in a row that yield nothing. */
  lemma RunTwoSilentSteps(w0: Walk, w1: Walk, w2: Walk, c1: Choice, c2: Choice, rest: seq<Choice>)
    requires Valid(w0) && Step(w0, c1) == Running(w1, None)
    requires Valid(w1) && Step(w1, c2) == Running(w2, None)
    ensures Run(w0, [c1, c2] + rest) == Run(w2, rest)
  {
    var later := [c2] + rest;
    SplitFirst(c1, c2, rest);
    RunSilentStep(w0, c1, w1, later);
    RunSilentStep(w1, c2, w2, rest);
  }

  /** The three silent steps from the start on a 1 by 1 grid: enter the
      branching phase, expand the root into no children, find it a dead end. */
  lemma SingleCellSteps(c1: Choice, c2: Choice, c3: Choice, rest: seq<Choice>)
    ensures Valid(SingleCellDeadEnd())
    ensures Run(Start(1, 1), [c1, c2, c3] + rest) == Run(SingleCellDeadEnd(), rest)
  {
    EnterStep(1, 1, c1);
    SingleCellExpands(c2);
    SingleCellDies(c3);
    RunThreeSilentSteps(Start(1, 1), Entered(1, 1), SingleCellExpanded(), SingleCellDeadEnd(), c1, c2, c3, rest);
  }

  /** On a 1 by 1 grid the root is found dead after three steps; the next
      step reports exhaustion, where the TypeScript engine as written
      follows the root's missing parent instead. */
  lemma {:induction false} SingleCellExhausts(c1: Choice, c2: Choice, c3: Choice, c4: Choice)
    ensures Generate(1, 1, [c1, c2, c3, c4]) == Trace([[]], Exhausted)
    ensures Backtrack(SingleCellDeadEnd().nodes, 0) == Threw(NoCompleteTilingFound)
    ensures BacktrackAsWritten(SingleCellDeadEnd().nodes, 0) == Threw(NullDereference)
  {
    var dead := SingleCellDeadEnd();
    SingleCellSteps(c1, c2, c3, [c4]);
    JoinFour(c1, c2, c3, c4);
    JoinTwo(c3, c4);
    assert Step(dead, c4) == Exhausted;
    RunHalts(dead, c4, []);
  }

  /** A grid of two cells side by side. */
  predicate TwoCells(width: int, height: int) {
    width == 2 && height == 1
  }

  /** On an empty two-by-one grid each free cell has exactly one free
      neighbour, the other cell. */
  lemma TwoCellNeighbours(t: Tiling, p: Position)
    requires TwoCells(t.width, t.height) && t.tiles == []
    requires IsFree(t, p)
    ensures |FreeNeighbours(t, p)| == 1
  {
    var r := FreeNeighbours(t, p);
    var other := Position(1 - p.x, 0);
    assert other in r;
    assert Elements(r) == {other};
    ElementsCardinality(r);
  }

  /** A grid of two cells whose empty tiling has a single child under
      `rank`. */
  predicate OneDomino(width: int, height: int, rank: Position -> int) {
    width * height == 2 && |ChildTilings(Tiling(width, height, []), rank)| == 1
  }

  /** The empty two-by-one grid has exactly one child, whatever the
      ranking. */
  lemma TwoCellChildren(width: int, height: int, rank: Position -> int)
    requires TwoCells(width, height)
    ensures OneDomino(width, height, rank)
  {
    var t := Tiling(width, height, []);
    var ranked := SortByKey(FreePositions(t), rank);
    ChildCountIsMinimum(t, ranked);
    assert IsFree(t, Position(0, 0));
    assert FreePositions(t) != [];
    var p :| IsFree(t, p) && |GenerateChildren(t, ranked)| == |FreeNeighbours(t, p)|;
    TwoCellNeighbours(t, p);
  }

  /** The arena once the root is expanded into a single child: the root,
      visited, with `child` as node 1. */
  function OneChildTree(width: int, height: int, child: Tiling): seq<Node> {
    [Node(None, Tiling(width, height, []), [1], true, true), Node(Some(0), child, [], false, true)]
  }

  /** Attaching a single child to the unvisited root. */
  lemma OneChildAttach(width: int, height: int, child: Tiling)
    ensures Attach(Entered(width, height), [child]) == OneChildTree(width, height, child)
  {
    var nodes := Attach(Entered(width, height), [child]);
    assert nodes[0] == Node(None, Tiling(width, height, []), [1], true, true);
    assert nodes[1] == Node(Some(0), child, [], false, true);
  }

  /** When the empty grid's root has a single child, expanding it gives the
      tree above. */
  lemma SingleChildExpands(width: int, height: int, rank: Position -> int)
    requires |ChildTilings(Tiling(width, height, []), rank)| == 1
    ensures Expand(Entered(width, height), rank)
         == Walk(OneChildTree(width, height, ChildTilings(Tiling(width, height, []), rank)[0]), 0, Branching)
  {
    var w := Entered(width, height);
    var tilings := ChildTilings(CursorTiling(w), rank);
    assert tilings == [tilings[0]];
    OneChildAttach(width, height, tilings[0]);
    assert Expand(w, rank).nodes == OneChildTree(width, height, tilings[0]);
  }

  /** From the expanded root of a grid of two cells: descend to the child
      yielding its tiles, then return them as complete. */
  lemma OneChildDescends(w2: Walk, child: Tiling, c3: Choice, c4: Choice)
    requires Valid(w2) && w2.nodes[0].tiling.width * w2.nodes[0].tiling.height == 2
    requires w2 == Walk(OneChildTree(w2.nodes[0].tiling.width, w2.nodes[0].tiling.height, child), 0, Branching)
    ensures Step(w2, c3) == Running(w2.(cursor := 1, phase := LoopHead), Some(child.tiles))
    ensures Valid(w2.(cursor := 1, phase := LoopHead))
    ensures Step(w2.(cursor := 1, phase := LoopHead), c4) == Finished(child.tiles)
    ensures |child.tiles| == 1
  {
    assert Linked(w2.nodes, 1);
    var viable := ViableChildren(w2.nodes, [1]);
    assert 1 in viable;
    assert viable == [1];
    assert Pick(c3.draw, 1) == 0;
  }

  /** Two silent steps, one yielding `tiles` and one returning them: the
      run yields `tiles` once and finishes with them. */
  lemma RunToFinish(w0: Walk, w1: Walk, w2: Walk, w3: Walk, c1: Choice, c2: Choice, c3: Choice, c4: Choice, tiles: seq<Tile>)
    requires Valid(w0) && Step(w0, c1) == Running(w1, None)
    requires Valid(w1) && Step(w1, c2) == Running(w2, None)
    requires Valid(w2) && Step(w2, c3) == Running(w3, Some(tiles))
    requires Valid(w3) && Step(w3, c4) == Finished(tiles)
    ensures Run(w0, [c1, c2, c3, c4]) == Trace([tiles], Finished(tiles))
  {
    RunYieldThenFinish(w2, w3, c3, c4, tiles);
    RunTwoSilentSteps(w0, w1, w2, c1, c2, [c3, c4]);
    JoinFour(c1, c2, c3, c4);
  }

  /** A step yielding `tiles` followed by one returning them. */
  lemma RunYieldThenFinish(w2: Walk, w3: Walk, c3: Choice, c4: Choice, tiles: seq<Tile>)
    requires Valid(w2) && Step(w2, c3) == Running(w3, Some(tiles))
    requires Valid(w3) && Step(w3, c4) == Finished(tiles)
    ensures Run(w2, [c3, c4]) == Trace([tiles], Finished(tiles))
  {
    RunHalts(w3, c4, []);
    RunEmittingStep(w2, c3, w3, tiles, [c4]);
    JoinTwo(c3, c4);
  }

  /** The tiles of the single child of the empty grid under `rank`. */
  function OnlyChild(width: int, height: int, rank: Position -> int): seq<Tile>
    requires OneDomino(width, height, rank)
  {
    ChildTilings(Tiling(width, height, []), rank)[0].tiles
  }

  /** On a grid of two cells whose root has a single child, four steps
      from the start yield that child's one tile and then return it as the
      complete tiling. */
  lemma {:induction false} OneDominoRun(width: int, height: int, c1: Choice, c2: Choice, c3: Choice, c4: Choice)
    requires OneDomino(width, height, c2.rank)
    ensures |OnlyChild(width, height, c2.rank)| == 1
    ensures Run(Start(width, height), [c1, c2, c3, c4])
         == Trace([OnlyChild(width, height, c2.rank)], Finished(OnlyChild(width, height, c2.rank)))
  {
    var w1 := Entered(width, height);
    var child := ChildTilings(Tiling(width, height, []), c2.rank)[0];
    var w2 := Walk(OneChildTree(width, height, child), 0, Branching);
    var w3 := w2.(cursor := 1, phase := LoopHead);
    EnterStep(width, height, c1);
    ExpandStep(w1, c2);
    SingleChildExpands(width, height, c2.rank);
    OneChildDescends(w2, child, c3, c4);
    RunToFinish(Start(width, height), w1, w2, w3, c1, c2, c3, c4, child.tiles);
  }
}
