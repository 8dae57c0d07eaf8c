# Sliding-tile puzzle: state logic

A Dafny model of the state logic of the puzzle component in `src/App.js`.
The component keeps four pieces of state: the grid size typed by the user,
the current arrangement of numbered tiles, the solved flag that opens the
completion dialog, and an inline error message. Its handlers are modelled
here:

- the shuffle generator, which builds `[1, ..., size * size]` and shuffles it
  in place with Fisher–Yates (Knuth);
- the Generate Grid button, which rejects a size below 1 and otherwise
  installs a fresh shuffled grid;
- the tile drop, which exchanges two cells and recomputes the solved flag;
- the size input's change handler, which shows or clears the error message;
- the Close button of the completion dialog.

Files:

- `arrangement.dfy` (module `Arrangement`): the canonical arrangement
  `Identity(n)`, the permutation predicate `IsArrangement`, the solved
  predicate `IsSolved` (cell k holds tile k + 1), the two-cell exchange
  `Swap`, and lemmas about them. `ArrangementHasNoGapsOrDuplicates` and
  `DistinctTilesAreArrangement` prove both directions of this statement: a
  grid of n cells is an arrangement exactly when its tiles are distinct and
  all lie in 1..n.
- `shuffle.dfy` (module `Shuffle`): the random index `Draw` computed from a
  `Math.random()` value, the specification `FisherYates` of the shuffle loop,
  the in-place loop `ShuffleInPlace` over an array, and `GenerateShuffledGrid`.
- `puzzle.dfy` (module `Puzzle`): the class `Game`, which holds the four state
  fields and has one method per handler. Its invariant `Valid()` says two
  things. The grid holds every tile 1..|grid| exactly once. The dialog is
  open only on a solved grid.

The random source is a parameter. `randoms` lists the values `Math.random()`
returns, in the order the loop asks for them, and each lies in [0, 1). The
permutation property therefore holds for every possible outcome of the draws.

Where the code and its design description differ, the model follows the code:

- Solved means "cell k holds tile k + 1"; the tiles are labelled 1..n², not 0..n²−1.
- Generating a grid of size 1 sets the solved flag to false, although the
  single tile is already in place; the dialog does not open.
- Swaps are allowed at any time; there is no "started" state.
- The solved flag is only kept in one direction (`isSolved ==> IsSolved(grid)`).
  After Generate Grid with size 1, or after Close, a solved grid has the flag false.
- Dropping a tile on its own cell is not a no-op for the dialog: the grid is
  unchanged, but the flag is recomputed from it. After Generate Grid with
  size 1, or after Close on a solved grid, that drop opens the dialog again.
- The size input stores a new size without regenerating the grid. The grid
  length is therefore not tied to `gridSize` in the invariant.

## Model

| member | source | states |
|---|---|---|
| `Arrangement.Identity` | src/App.js:11 | the initial sequence has n cells and is solved: cell k holds k + 1 |
| `Arrangement.IsSolved` | src/App.js:45 | the solved check holds when every cell k holds k + 1; a solved grid has distinct tiles, all in 1..n |
| `Arrangement.Swap` | src/App.js:41-42 | the copy has the same length, cells i and j hold each other's old tiles, every other cell keeps its tile |
| `Arrangement.SwapPermutes` | src/App.js:41-42 | exchanging two cells keeps the multiset of tiles, so it keeps a grid an arrangement of 1..n |
| `Arrangement.SwapSameCell` | src/App.js:42 | exchanging a cell with itself leaves the grid unchanged |
| `Arrangement.SwapInvolution` | src/App.js:42 | exchanging the same two cells twice restores the grid |
| `Arrangement.SolvedIsIdentity` | src/App.js:45 | the solved check holds exactly for the canonical arrangement [1..n], which is itself an arrangement |
| `Arrangement.IdentityCount` | src/App.js:11 | the initial sequence holds each of 1..n exactly once and no other value |
| `Arrangement.ArrangementHasNoGapsOrDuplicates` | src/App.js:11-15 | a permutation of 1..n has every tile in 1..n, no tile twice, and every tile of 1..n somewhere |
| `Arrangement.DistinctTilesAreArrangement` | src/App.js:11-15 | conversely, n distinct tiles all in 1..n form a permutation of 1..n |
| `Arrangement.DistinctTilesBounded` | src/App.js:11-15 | helper for `DistinctTilesAreArrangement`, not itself code of the source: distinct tiles drawn from 1..m fill at most m cells (pigeonhole) |
| `Shuffle.ScaledDrawBelow` | src/App.js:13 | a draw r in [0, 1) times a positive m lies in [0, m) |
| `Shuffle.Draw` | src/App.js:13 | floor(r * (i + 1)) with r in [0, 1) is an index in 0..i, so every exchange stays in bounds |
| `Shuffle.FisherYates` | src/App.js:12-15 | the loop as a recursive definition: step i exchanges cell i with the cell picked by the next draw, for i from the top index down to 1; the length is kept and no cell above the starting index moves |
| `Shuffle.FisherYatesStep` | src/App.js:12-15 | one loop step exchanges cell i with the cell chosen by the next draw, and the later steps use the later draws |
| `Shuffle.FisherYatesPermutes` | src/App.js:12-15 | for every sequence of draws, the shuffle keeps the length and the multiset of tiles |
| `Shuffle.ShuffledIdentityIsArrangement` | src/App.js:11-15 | shuffling [1..n] gives a permutation of 1..n for every sequence of draws, and [1] when n is 1 |
| `Shuffle.Exchange` | src/App.js:14 | the destructuring swap changes the array to the two-cell exchange of its old contents |
| `Shuffle.ShuffleInPlace` | src/App.js:12-15 | the in-place loop leaves the array equal to the Fisher–Yates specification applied to its old contents |
| `Shuffle.GenerateShuffledGrid` | src/App.js:10-17 | the result has size² cells, is the shuffle of [1..size²] under the given draws, is a permutation of 1..size², and is [1] for size 1 |
| `Puzzle.SizeMessage` | src/App.js:60-64 | the message is empty exactly when the size is at least 1, and otherwise is the "smaller than 1" text |
| `Puzzle.Game.constructor` | src/App.js:5-8 | the initial state is size 0, an empty grid, dialog closed, no message, and satisfies the invariant |
| `Puzzle.Game.ChangeGridSize` | src/App.js:57-65 | stores the size and sets the message iff the size is below 1; grid and dialog unchanged; invariant kept |
| `Puzzle.Game.GenerateGrid` | src/App.js:19-29 | below 1 only the message is set and grid and flag are unchanged; otherwise the message is cleared, the grid becomes a shuffled arrangement of size² tiles and the flag is false, also for size 1 where the grid is [1] and already solved; invariant kept |
| `Puzzle.Game.SwapTiles` | src/App.js:40-46 | the grid becomes the two-cell exchange of the old grid, with the same tiles; the flag is true iff every cell k holds k + 1; size and message unchanged; invariant kept |
| `Puzzle.Game.CloseDialog` | src/App.js:105 | the flag becomes false and nothing else changes; invariant kept |

## Left out

- Rendering (JSX, CSS classes, the dialog markup, the tile grid layout) is presentation only.
- The drag handlers go through the browser's `DataTransfer` API and `parseInt`, which is DOM I/O.
  `SwapTiles` takes the two indices directly and requires both to be cells of the grid.
  JavaScript's behaviour for a NaN or out-of-range index is not modelled; it would add `undefined` entries or extend the array.
- `Math.random()` is a sequence of caller-supplied values in [0, 1). Its floating-point product with i + 1 is exact real arithmetic here.
- The shuffle's uniformity over all (n²)! orders is a probabilistic claim about the random source; it is not modelled.
- `gridSize` is an integer. A fractional value typed into the number input, and the NaN case in which neither branch of the Generate Grid handler runs, are not modelled.
- `Shuffle.GenerateShuffledGrid` does not model the `RangeError` that `Array.from` raises when size² exceeds 2³² − 1 (size above 65535); integers are unbounded here.
- React's `useState`/`useCallback` semantics and re-render timing are not modelled. Each setter is a direct field assignment, so a handler sees its own earlier writes.
- Elapsed-time tracking, local-storage persistence, image slicing and a "started" gate are not part of `src/App.js`. They are not part of this model.
