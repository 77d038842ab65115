# Blocky grid engine in Dafny

A model of the grid engine of the "blocky" game, `app/javascript/grid.js`. The game is a 10 × 10 grid of coloured
blocks. Clicking a visible block removes its connected same-coloured region. The removed (hidden) blocks then rise to
the top of their column, and the remaining blocks fall into the gaps.

The model has five modules:

- `Blocks` (`blocks.dfy`): the palette `Colours` (red, green, blue, yellow), the grid size `MaxX = MaxY = 10`, and the
  `Block` record. A block carries an `id`, the coordinate it was created at. The engine never changes the `id`, so it
  stands in for JavaScript object identity. `NewBlock` is the `Block` constructor.
- `BlockGrid` (`grid.dfy`): the grid as columns of blocks indexed `[x][y]`, with row 0 at the bottom. Also holds the
  `BlockGrid` constructor (`NewBlockGrid`) and `getAdjacentBlocks`. `WellFormed` is the shape every grid keeps: 10
  columns of 10 blocks, each block's stored `x`/`y` equal to its cell. In a well-formed grid no two cells hold equal
  values, so value equality agrees with the identity comparison the JavaScript makes (`checked.includes`).
- `Connected` (`connected.dfy`): `getConnectedBlocks` as a FIFO flood fill. Reachability by same-coloured 4-adjacent
  paths is its reference definition. The file also holds the as-written loop and a concrete trace that shows it
  repeating a hit (see Findings).
- `Gravity` (`gravity.dfy`): `collapse`. Each column is split into visible and hidden blocks, each group in its order.
  The two groups are concatenated and rows renumbered. The result is proved against an independent description:
  settled, a stable rearrangement, a permutation, and unique.
- `Clicks` (`clicks.dfy`): the non-DOM part of `blockClicked`. It returns the new grid and whether the view would be
  refreshed.

`Math.random()` becomes a parameter: a real `roll` in [0, 1) per block. The whole grid takes `MaxX * MaxY` rolls, drawn
in the constructor's column-major order.

## Model

| member | source | states |
|---|---|---|
| Blocks.PaletteIndex | app/javascript/grid.js:28 | the chosen palette index is within the palette and is the one whose quarter of [0, 1) the random draw falls in (`Math.floor(Math.random() * COLOURS.length)`) |
| Blocks.NewBlock | app/javascript/grid.js:25-30 | a new block sits at the given coordinate, is not hidden, has a palette colour, and has colour `Colours[i]` exactly when the draw falls in quarter `i` |
| BlockGrid.NewBlockGrid | app/javascript/grid.js:38-51 | the new grid has `MaxX` columns of `MaxY` blocks; the block at (x, y) is visible, has coordinate and identity (x, y), and takes its colour from draw number `x * MaxY + y` |
| BlockGrid.GetAdjacentBlocks | app/javascript/grid.js:167-182 | a block is in the result exactly when it is a grid block orthogonally adjacent to the argument; results come in the order left, right, y - 1, y + 1; there are 4 for an interior cell, 3 on an edge, 2 in a corner |
| Connected.Visit | app/javascript/grid.js:138-155 | one loop iteration: the head is dequeued; a head checked before is dropped with nothing else changed; otherwise it is marked checked and is a hit exactly when it has the origin's colour; the newly queued blocks are exactly its unchecked grid neighbours when it is a hit and none otherwise; the rest of the queue keeps its order |
| Connected.GetConnectedBlocks | app/javascript/grid.js:133-157 | the result starts with the clicked block and holds no block twice; a block is in it exactly when a same-coloured 4-adjacent path leads to it from the clicked block; an isolated block yields just itself |
| Connected.IsolatedReachesOnlyItself | app/javascript/grid.test.js:55-68 | a block with no same-coloured neighbour is connected only to itself |
| Connected.ClosedSetContainsReachable | app/javascript/grid.js:146-151 | a set that holds the origin and every same-coloured neighbour of its members holds the whole connected region; this is why queuing the neighbours of every hit finds all of the region |
| Connected.Unchecked | app/javascript/grid.js:147-151 | the neighbours a hit queues: no more than it has, and none of them already checked |
| Connected.UncheckedMembers | app/javascript/grid.js:147-151 | a neighbour is queued exactly when it is not yet checked |
| Connected.VisitAsWritten | app/javascript/grid.js:138-155 | the loop body as written: the head is always added to `checked`, even when it was there already, and is appended to the hits exactly when it has the origin's colour; the rest of the queue keeps its order |
| Connected.RunAsWritten | app/javascript/grid.js:138 | the `while` loop as written, for at most `fuel` iterations: the queue holds only grid blocks throughout, and hits are only ever appended, never removed or reordered |
| Connected.VisitAsWrittenEffect | app/javascript/grid.js:138-155 | the loop body as written: the head is always processed, even if it was checked before; it becomes a hit exactly when it has the origin's colour, and then queues its unchecked neighbours |
| Connected.AsWrittenHitsRepeat | app/javascript/grid.js:146-154 | on an all-red grid, clicking the corner (0, 0) makes the as-written loop hit block (1, 1) in both its fifth and sixth iteration, so the returned list repeats it |
| Gravity.WithHidden | app/javascript/grid.js:196-199 | `filter` on the `hidden` flag: the result is no longer than the column and holds exactly the column's blocks with that flag |
| Gravity.Renumber | app/javascript/grid.js:205-208 | the `map` that rewrites rows: the column keeps its length, the block at index i gets row i, and every other field of the block is kept |
| Gravity.CollapseColumn | app/javascript/grid.js:194-208 | a collapsed column has the same length; it is settled (row equal to index, no visible block above a hidden one); up to rows, its visible blocks and its hidden blocks are the column's, each group in its old order; it is a permutation of the column up to rows |
| Gravity.HasHidden | app/javascript/grid.js:210 | `hiddenList.length > 0` holds exactly when some block of the column is hidden |
| Gravity.Collapse | app/javascript/grid.js:191-213 | every column is collapsed as above, independently; the flag reports a change exactly when some block of the grid was hidden |
| Gravity.CollapseColumnUnique | app/javascript/grid.js:194-208 | any settled column of the same length that stably rearranges a column equals its collapse, so the contract of `CollapseColumn` fixes the result |
| Gravity.CollapseColumnHiddenOnTop | app/javascript/grid.js:202 | after collapse, a cell is hidden exactly when it is among the top k cells, where k is the number of hidden blocks the column had |
| Gravity.CollapseSettledColumn | app/javascript/grid.js:194-208 | collapsing an already settled column changes nothing |
| Gravity.CollapseIdempotent | app/javascript/grid.js:191-213 | collapsing twice gives the same grid as collapsing once |
| Gravity.CollapseWithoutHidden | app/javascript/grid.js:191-213 | with no hidden block, collapse leaves a well-formed grid unchanged and reports no change |
| Gravity.CollapseKeepsWellFormed | app/javascript/grid.js:205-208 | after collapse every block's stored coordinate still equals its cell: x is untouched and y is renumbered |
| Clicks.Hide | app/javascript/grid.js:96-98 | marking a set hidden keeps the grid's shape and every block's other fields; a block ends up hidden exactly when it was hidden already or is in the set |
| Clicks.HideReachable | app/javascript/grid.js:94-98 | hiding the blocks of a set that holds exactly the blocks reachable from the clicked one hides exactly its connected region |
| Clicks.BlockClicked | app/javascript/grid.js:91-105 | a click on a hidden block changes nothing and triggers no refresh; a click on a visible block gives the collapse of the grid with exactly its connected region hidden, leaves every column settled, keeps the grid well formed, and always triggers a refresh |

## Left out

- `render` (grid.js:59-80) and `update` (grid.js:113-124) only build and tear down DOM elements, so they are left out. `BlockClicked` returns, as a boolean, whether it would call `update`.
- The `DOMContentLoaded` bootstrap at the end of grid.js and the webpack configuration are not part of this model: they are I/O and build tooling.
- The click event argument `e` of `blockClicked` is unused by the source and is not a parameter here.
- `Math.random()` is not modelled: each call becomes a parameter roll in [0, 1).
- JavaScript objects mutated in place are modelled as immutable values rebuilt by each operation. Identity is the `id` field, plus value equality in a well-formed grid.
- The `checked` array of `getConnectedBlocks` is a set here. The source only appends to it and tests membership.
- Connected.Visit, Connected.GetConnectedBlocks: drop a dequeued block that is already checked. The source processes such a block again and can list it twice (see Findings). The set of blocks found is the same, and `blockClicked` only uses the result to hide blocks, where a repeat has no effect.
- Connected.RunAsWritten: runs the as-written loop for at most `fuel` iterations. It serves only the concrete trace, so the as-written loop's termination is not modelled.
- `blockClicked` (grid.js:91-105) returns nothing; it calls `update()` when `collapse()` reports a change. `BlockClicked` returns that flag instead of calling anything.
- The unit tests are not modelled as tests. Their claims appear as contracts: grid shape and block coordinates in `NewBlockGrid`, neighbour counts in `GetAdjacentBlocks`, and the isolated block in `GetConnectedBlocks`.

## Findings

| source | as written | input that shows it | evidently intended | confidence | as-written member | corrected member |
|---|---|---|---|---|---|---|
| app/javascript/grid.js:146-154 | `checked.includes` is consulted when a neighbour is queued, and a block is marked checked only when it is dequeued. A block queued by two hits before its turn is processed twice and, if it has the clicked block's colour, pushed onto `hits` twice. | all-red grid, click block (0, 0): (1, 1) is queued by (1, 0) and by (0, 1), and the fifth and sixth iterations both hit it | each connected block is listed once (the comment at grid.js:153, "Make sure we don't waste time checking this one again") | not executed | Connected.AsWrittenHitsRepeat | Connected.GetConnectedBlocks |
