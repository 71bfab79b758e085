# Domino tiling engine, modelled in Dafny

This project models the search engine of a random domino-tiling generator.
The engine works on a `width` by `height` grid. It grows a tiling one domino
at a time. At each step it branches on the free cell with the fewest free
neighbours, and it backtracks out of dead ends. Every intermediate tiling is
handed to a consumer through a generator. The model covers these parts:

- `Position` and `Tile`, with `isEqual` and `overlaps` (module `Geometry`);
- the `Tiling` queries `occupiedPositions`, `isInBounds`, `isFreePosition`,
  `freePositions` and `isComplete` (module `Tilings`);
- the flood fill of `hasConnectedVacancy` (module `Vacancy`);
- the most-constrained-cell rule of `generateChildren` (module `Children`);
- `TileTreeWalkNode` and the `initTileGenerator` walk (module `TreeWalk`).
  Here the search tree is an arena of nodes addressed by index, with a
  cursor and the program point the loop stands at between two actions.
  `Step` performs one action of the loop, consumes one choice, and reports
  what the generator yields.
- `Seqs` holds generic sequence facts, a filter, and the stable sort that
  stands for `toSorted`.

The engine's two random choices are inputs of the model. The first is a rank
per cell. It stands for the random tie-break plus the negated distance from
the centre, and it orders the free cells. The second is a fraction in [0, 1)
for the viable-child pick. Every property below therefore holds for every
possible outcome of the randomness.

## Model

| member | source | states |
|---|---|---|
| Geometry.IsEqual | src/tilingEngine.ts:3-5 | true exactly when the two positions are the same cell |
| Geometry.Neighbours | src/tilingEngine.ts:90-95 | the four probed cells are distinct and are exactly the cells at Manhattan distance one |
| Geometry.Overlaps | src/tilingEngine.ts:13-17 | true exactly when the two dominoes share an endpoint |
| Tilings.Occupied | src/tilingEngine.ts:27-29 | two entries per tile; entry `2k` is tile `k`'s first cell and entry `2k+1` its second |
| Tilings.OccupiedMeansClaimed | src/tilingEngine.ts:27-29 | a cell is in the occupied list exactly when some placed tile covers it |
| Tilings.InBoundsIffGridCell | src/tilingEngine.ts:31-38 | a position is in bounds exactly when it is one of the width·height cells of the grid |
| Tilings.IsFree | src/tilingEngine.ts:40-45 | free means inside the grid and not an endpoint of any placed tile |
| Tilings.FreePositions | src/tilingEngine.ts:47-58 | lists exactly the free cells, none twice |
| Tilings.FreePositionsOrdered | src/tilingEngine.ts:49-55 | the free cells come column by column, by increasing y within a column, as the nested loops push them |
| Tilings.IsComplete | src/tilingEngine.ts:63-65 | complete exactly when twice the number of tiles equals width·height |
| Tilings.NoOverlapsIffCellsDistinct | src/tilingEngine.ts:13-29 | dominoes of two distinct cells never overlap exactly when no cell appears twice in the occupied list |
| Tilings.FreeCount | src/tilingEngine.ts:47-65 | in a well-formed tiling on a grid with non-negative sides, the number of free cells is the grid area minus two per tile |
| Tilings.CompleteIffNoFreeCell | src/tilingEngine.ts:60-65 | a well-formed tiling on a grid with non-negative sides is complete exactly when no cell is free |
| Vacancy.Flood | src/tilingEngine.ts:79-104 | the fill visits only free cells, each once, and keeps every cell already visited or still on the stack |
| Vacancy.FloodStaysConnected | src/tilingEngine.ts:82-104 | every visited cell is reachable from the seed through adjacent free cells |
| Vacancy.FloodCloses | src/tilingEngine.ts:82-104 | when the stack is empty, every free neighbour of a visited cell has been visited |
| Vacancy.FloodFindsComponent | src/tilingEngine.ts:78-106 | the fill visits as many cells as there are free cells exactly when all of them are reachable from the first one |
| Vacancy.HasConnectedVacancy | src/tilingEngine.ts:67-107 | true on no free cell, and otherwise exactly when every free cell is reachable from the first free cell through adjacent free cells |
| Seqs.Filter | src/tilingEngine.ts:143 | keeps exactly the entries satisfying the predicate, and keeps a duplicate-free input duplicate-free |
| Seqs.FilterConcat | src/tilingEngine.ts:218 | filtering decides entry by entry and concatenates in order: the filter of a concatenation is the concatenation of the filters, and one entry is kept exactly when it passes, so order and multiplicity of kept entries are preserved |
| Seqs.SortByKey | src/tilingEngine.ts:115-129 | the result is a permutation of the input, ascending in the rank |
| Children.FreeNeighbours | src/tilingEngine.ts:138-143 | at most four cells, none twice, exactly the free cells adjacent to the given cell |
| Children.MostConstrained | src/tilingEngine.ts:134-152 | the chosen index has the fewest free neighbours, and every earlier index has strictly more (first minimum wins) |
| Children.BranchCell | src/tilingEngine.ts:134-152 | whatever the ranking, the branch cell is free and no free cell has fewer free neighbours |
| Children.PlacingKeepsWellFormed | src/tilingEngine.ts:154-157 | a tile placed on two free adjacent cells keeps the tiling in bounds and overlap-free |
| Children.GenerateChildren | src/tilingEngine.ts:112-158 | no free cell gives no child; otherwise there is one child per free neighbour of the branch cell, each the parent plus a distinct new tile from the branch cell to that neighbour |
| Children.ChildrenKeepWellFormed | src/tilingEngine.ts:154-157 | every child of a well-formed tiling is well formed |
| Children.ChildCountIsMinimum | src/tilingEngine.ts:134-157 | the number of children is the smallest free-neighbour count over the free cells |
| Children.ChildCountIndependentOfRanking | src/tilingEngine.ts:113-157 | two rankings of the free cells give the same number of children |
| Children.NoChildrenIffIsolatedCell | src/tilingEngine.ts:130-157 | no child exactly when no cell is free or some free cell has no free neighbour |
| TreeWalk.Pick | src/tilingEngine.ts:227 | the index drawn is always a valid index into the viable children |
| TreeWalk.MarkDead | src/tilingEngine.ts:221 | only the cursor's node changes, and only in its viable flag, which becomes false; the walk invariant is kept |
| TreeWalk.Backtrack | src/tilingEngine.ts:187-194 | the corrected backtrack: it throws exactly at the root, with "no complete tiling found"; otherwise it moves to the parent, one tile shorter, and yields the parent's tiles |
| TreeWalk.BacktrackAsWritten | src/tilingEngine.ts:189-193 | as written: at the root, the yield through the null parent fails before the guard; elsewhere it agrees with the corrected backtrack |
| TreeWalk.Retreat | src/tilingEngine.ts:187-205 | ends the walk exactly at the root; otherwise it moves to the parent, yields the parent's tiles and goes to the connected-vacancy test |
| TreeWalk.ViableChildren | src/tilingEngine.ts:218 | keeps exactly the children whose nodes are viable |
| TreeWalk.Attach | src/tilingEngine.ts:211-216 | one new node per child tiling, unvisited and viable, whose parent is the cursor; the cursor's node is marked visited and lists them as its children; other nodes are unchanged |
| TreeWalk.AttachKeepsValid | src/tilingEngine.ts:211-216 | attaching one-tile extensions of the cursor's tiling keeps the walk invariant |
| TreeWalk.ChildTilings | src/tilingEngine.ts:212-214 | every child tiling extends the cursor's tiling by one tile and is well formed |
| TreeWalk.Expand | src/tilingEngine.ts:210-216 | the new arena is exactly the cursor's generated children, ranked by the step's ranking, attached below the cursor; the invariant is kept, older nodes other than the cursor are unchanged, and the cursor is visited with the appended nodes as its children |
| TreeWalk.Step | src/tilingEngine.ts:184-229 | each action keeps the invariant and only grows the arena; any yielded list is the new cursor's tiles and one tile apart from the previous; a finish returns a complete tiling; exhaustion happens only at the root |
| TreeWalk.StepActions | src/tilingEngine.ts:184-229 | which action each step takes: at the loop head, finish exactly on a complete tiling, backtrack from a dead cursor, else branch; after backtracking, branch exactly on a connected vacancy, else mark the cursor dead and backtrack again; when branching, expand an unvisited cursor, mark a visited cursor dead exactly when it has no viable child, else descend into the viable child the draw picks and yield its tiles; when branching, a viable cursor is marked dead only when it has no viable child |
| TreeWalk.Start | src/tilingEngine.ts:180-182 | the initial walk is valid and is a single root at the loop head: no children, not visited, viable, holding the empty tiling of the requested grid |
| TreeWalk.Run | src/tilingEngine.ts:184-229 | over any sequence of steps: everything yielded is a well-formed tiling of the grid, consecutive yields differ by one tile, and a finished run returns the last list shown, which is complete and well formed |
| TreeWalk.Generate | src/tilingEngine.ts:176-233 | the generator first yields the empty list; every yield is a well-formed tiling of the grid, one tile away from the yield before it; a returned tiling is complete, well formed and leaves no cell free |
| TreeWalk.SingleCellExhausts | src/tilingEngine.ts:187-194 | on a 1 by 1 grid the corrected walk yields the empty list and then reports exhaustion after four steps, while the code as written fails with a null dereference at that point |
| TreeWalk.TwoCellChildren | src/tilingEngine.ts:112-157 | on the empty 2 by 1 grid the root has exactly one child, under every ranking |
| TreeWalk.OneDominoRun | src/tilingEngine.ts:184-232 | on a two-cell grid whose root has one child, four steps yield that child's single tile and then return it as the complete tiling |

## Left out

- The user interface and the renderer (`src/index.ts`, `src/tileRenderer.ts`) are not part of this model.
- The random colour `id` of a `Tile` has no role in the search and is not modelled.
- Floating-point ranks (`Math.random()` plus negated Euclidean distance from the centre) are replaced by an integer rank per cell. The model therefore allows more orders than the code, whose distance term always puts a cell more than one unit farther from the centre first; every property is proved for all of these orders. Sorting by the rank stands for `toSorted((a, b) => a.rank - b.rank)`.
- `Math.random()` for the child pick is a fraction `num / den` below one. `Math.floor(Math.random() * n)` becomes `num * n / den`.
- The generator's suspension at each `yield` is modelled as a sequence of explicit steps (`Step`, `Run`). Each `Step` consumes one `Choice`. One pull by the consumer corresponds to the silent steps up to and including the next step that yields, returns or fails. The first yield of the empty list happens before any step and consumes no choice. Pulls are not counted in the model.
- Object identity and in-place mutation of nodes are modelled by an arena of immutable nodes addressed by index.
- TreeWalk.Generate: does not state that the walk terminates, or that it finds a tiling whenever one exists. Only what it yields and returns is constrained.
- Seqs.SortByKey: stability for equal ranks is built into the definition but not stated in the contract. Nothing else in the model depends on it.
- TreeWalk.Pick: the uniform distribution of the draw is not modelled, only that the index is in range.
- Connectivity is tested only after backtracking (lines 196-207), not when descending. The model therefore claims no pruning guarantee for tilings reached going down.
- Tilings.CompleteIffNoFreeCell and Tilings.FreeCount: both hold only on grids with non-negative sides. On a grid with a negative side no cell is free, yet `isComplete` compares the tile cells with a negative area and reports incomplete (for example, no tiles on a -1 by 2 grid). There its comment at src/tilingEngine.ts:60-62, complete when every position is occupied, does not match the code. The model follows the code.
- The code has no forced-move shortcut and does not validate the grid dimensions; neither is modelled.
- Grid dimensions and coordinates are JavaScript numbers in the code and integers here. Fractional, infinite or NaN dimensions are not modelled.

## Findings

| source | as written | input that shows it | evidently intended | confidence | as-written member | corrected member |
|---|---|---|---|---|---|---|
| src/tilingEngine.ts:189-193 | when the root is found dead, `pointer = pointer.parent!` sets the pointer to null and `yield pointer.tiling.tiles` dereferences it before the `if (!pointer)` guard, so a null-dereference error escapes; the same order recurs at lines 201-204 | a 1 by 1 grid: the root has no child, is marked dead, and the next loop iteration backtracks from the root | throw "No complete tiling found" when there is no parent to return to | high (not executed) | TreeWalk.BacktrackAsWritten | TreeWalk.Backtrack |
