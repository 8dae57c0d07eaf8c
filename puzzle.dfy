/**
 * The puzzle component's state and its event handlers: the grid size typed
 * by the user, the current arrangement, the solved flag that opens the
 * completion dialog, and the inline error message.
 */
module Puzzle {
  import opened Arrangement
  import opened Shuffle

  /** The inline message shown for a grid size below 1. */
  const SizeError: string := "Number can't be smaller than 1"

  /** The error message for a requested grid size: empty exactly when the size is at least 1. */
  function SizeMessage(value: int): (message: string)
    ensures message == "" <==> value >= 1
    ensures message != "" ==> message == SizeError
  {
    if value < 1 then SizeError else ""
  }

  class Game {
    var gridSize: int
    var grid: seq<int>
    var isSolved: bool
    var errorMessage: string

    /**
     * The state every handler keeps: the grid holds each tile 1..|grid|
     * exactly once, and the dialog is only open on a solved grid.
     */
    ghost predicate Valid()
      reads this
    {
      IsArrangement(grid) && (isSolved ==> IsSolved(grid))
    }

    /** The initial state: size 0, no tiles, no dialog, no message. */
    constructor ()
      ensures Valid()
      ensures gridSize == 0 && grid == [] && !isSolved && errorMessage == ""
    {
      gridSize, grid, isSolved, errorMessage := 0, [], false, "";
    }

    /**
     * The size input's change handler: stores the typed size and shows or
     * clears the message; the grid and the dialog stay as they are.
     */
    method ChangeGridSize(value: int)
      modifies this
      ensures gridSize == value
      ensures errorMessage == SizeMessage(value)
      ensures grid == old(grid) && isSolved == old(isSolved)
      ensures old(Valid()) ==> Valid()
    {
      gridSize := value;
      if value < 1 {
        errorMessage := SizeError;
      } else {
        errorMessage := "";
      }
    }

    /**
     * The Generate Grid button. A size below 1 only sets the message; any
     * other size clears it, installs a freshly shuffled arrangement of
     * gridSize * gridSize tiles and closes the dialog, even for a single
     * tile that is already in place.
     */
    method GenerateGrid(randoms: seq<real>)
      requires gridSize >= 1 ==> gridSize * gridSize <= |randoms| + 1
      requires UnitDraws(randoms)
      modifies this
      ensures gridSize == old(gridSize)
      ensures old(gridSize) < 1 ==>
                errorMessage == SizeError && grid == old(grid) && isSolved == old(isSolved)
      ensures old(gridSize) >= 1 ==>
                && errorMessage == ""
                && |grid| == gridSize * gridSize
                && grid == FisherYates(Identity(gridSize * gridSize), randoms, gridSize * gridSize - 1)
                && IsArrangement(grid)
                && !isSolved
      ensures old(gridSize) == 1 ==> grid == [1] && IsSolved(grid) && !isSolved
      ensures old(Valid()) ==> Valid()
    {
      if gridSize < 1 {
        errorMessage := SizeError;
        return;
      } else if gridSize > 0 {
        errorMessage := "";
        var shuffledGrid := GenerateShuffledGrid(gridSize, randoms);
        grid := shuffledGrid;
        isSolved := false;
      }
    }

    /**
     * Dropping the tile of cell `fromIndex` on cell `toIndex`: the two cells
     * exchange their tiles, nothing else on the grid moves, and the dialog
     * opens exactly when every cell now holds its own tile.
     */
    method SwapTiles(fromIndex: nat, toIndex: nat)
      requires fromIndex < |grid| && toIndex < |grid|
      modifies this
      ensures grid == Swap(old(grid), fromIndex, toIndex)
      ensures multiset(grid) == multiset(old(grid))
      ensures isSolved <==> forall k :: 0 <= k < |grid| ==> grid[k] == k + 1
      ensures gridSize == old(gridSize) && errorMessage == old(errorMessage)
      ensures old(Valid()) ==> Valid()
    {
      var updatedGrid := new int[|grid|](k requires 0 <= k < |grid| reads this => grid[k]);
      assert updatedGrid[..] == grid;
      Exchange(updatedGrid, fromIndex, toIndex);
      SwapPermutes(grid, fromIndex, toIndex);
      grid := updatedGrid[..];
      isSolved := IsSolved(grid);
    }

    /** The dialog's Close button: closes the dialog and leaves the grid as it is. */
    method CloseDialog()
      modifies this
      ensures !isSolved
      ensures grid == old(grid) && gridSize == old(gridSize) && errorMessage == old(errorMessage)
      ensures old(Valid()) ==> Valid()
    {
      isSolved := false;
    }
  }
}
