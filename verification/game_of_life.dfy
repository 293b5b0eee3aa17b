/**
 * The simulation engine: a rows x cols grid of cells updated in place by
 * toggle, tick and reset, with the tri-state `updated` signal.
 */
module Engine {
  import opened Life

  /** The range of a Java int. */
  type Int32 = x: int | -0x8000_0000 <= x < 0x8000_0000

  /** The one Java int whose negation overflows. */
  const IntMin: Int32 := -0x8000_0000

  /** What toggle and currentState return for an index off the grid. */
  const InvalidIndex := -1

  /** The values of `updated`. */
  const NeverTicked := -1
  const Unchanged := 0
  const Changed := 1

  function Abs(x: int): nat {
    if x < 0 then -x else x
  }

  class GameOfLife {
    const rows: nat
    const cols: nat
    const gameGrid: array2<int>
    var updated: int

    /** The grid has the stored dimensions. */
    predicate Shaped() {
      gameGrid.Length0 == rows && gameGrid.Length1 == cols
    }

    /** The grid has the stored dimensions, holds only 0/1 cells, and `updated` is one of its three values. */
    ghost predicate Valid()
      reads this, gameGrid
      ensures Valid() ==> Shaped() && IsGeneration(Contents(), rows, cols)
    {
      Shaped() &&
      (forall r, c :: 0 <= r < rows && 0 <= c < cols ==> gameGrid[r, c] == 0 || gameGrid[r, c] == 1) &&
      (updated == NeverTicked || updated == Unchanged || updated == Changed)
    }

    /** The current generation held by the grid. */
    ghost function Contents(): (g: Generation)
      reads gameGrid
      ensures |g| == gameGrid.Length0
      ensures forall r :: 0 <= r < |g| ==> |g[r]| == gameGrid.Length1
      ensures forall r, c :: 0 <= r < gameGrid.Length0 && 0 <= c < gameGrid.Length1 ==> g[r][c] == gameGrid[r, c]
    {
      seq(gameGrid.Length0, r requires 0 <= r < gameGrid.Length0 reads gameGrid =>
        seq(gameGrid.Length1, c requires 0 <= c < gameGrid.Length1 reads gameGrid => gameGrid[r, c]))
    }

    /**
     * Negative dimensions are replaced by their absolute values; every cell
     * starts dead and the game has never been ticked.
     */
    constructor (rowsArg: Int32, colsArg: Int32)
      requires rowsArg != IntMin && colsArg != IntMin
      ensures Valid() && fresh(gameGrid)
      ensures rows == Abs(rowsArg) && cols == Abs(colsArg)
      ensures Contents() == Dead(rows, cols)
      ensures updated == NeverTicked
    {
      var r, c := rowsArg, colsArg;
      if r < 0 {
        r := -r;
      }
      if c < 0 {
        c := -c;
      }
      rows := r;
      cols := c;
      gameGrid := new int[r, c]((_, _) => 0);
      updated := NeverTicked;
      new;
      DeadIsGeneration(rows, cols);
      SameCells(Contents(), Dead(rows, cols));
    }

    /** (i, j) is a position of the grid. */
    predicate ValidIndex(i: int, j: int)
      reads gameGrid
      requires Shaped()
      ensures ValidIndex(i, j) <==> InGrid(Contents(), i, j)
    {
      (i >= 0 && i < rows) && (j >= 0 && j < cols)
    }

    /** The number of rows. */
    function GetM(): (m: nat)
      reads this, gameGrid
      requires Valid()
      ensures m == |Contents()|
    {
      rows
    }

    /** The number of columns, also when the grid has no rows. */
    function GetN(): (n: nat)
      reads this, gameGrid
      requires Valid()
      ensures n == gameGrid.Length1
      ensures forall r :: 0 <= r < |Contents()| ==> |Contents()[r]| == n
    {
      cols
    }

    /** 1 if the last tick changed some cell, 0 if it changed none, -1 if there has been no tick. */
    function Updated(): (u: int)
      reads this, gameGrid
      requires Valid()
      ensures u == NeverTicked || u == Unchanged || u == Changed
    {
      updated
    }

    /**
     * Flips the cell at (i, j) and returns its new state; off the grid,
     * returns InvalidIndex and changes nothing. `updated` is never touched.
     */
    method Toggle(i: Int32, j: Int32) returns (result: int)
      requires Valid()
      modifies gameGrid
      ensures Valid() && updated == old(updated)
      ensures !ValidIndex(i, j) ==> result == InvalidIndex && Contents() == old(Contents())
      ensures ValidIndex(i, j) ==>
        result == 1 - old(Contents())[i][j] &&
        Contents() == Toggled(old(Contents()), i, j)
    {
      if !ValidIndex(i, j) {
        return InvalidIndex;
      }
      ghost var g := Contents();
      var cell := gameGrid[i, j];
      gameGrid[i, j] := if cell == 1 then 0 else 1;
      result := gameGrid[i, j];
      SameCells(Contents(), Toggled(g, i, j));
    }

    /** The state (0 or 1) of the cell at (i, j); InvalidIndex off the grid. */
    method CurrentState(i: Int32, j: Int32) returns (state: int)
      requires Valid()
      ensures !InGrid(Contents(), i, j) ==> state == InvalidIndex
      ensures InGrid(Contents(), i, j) ==> state == Contents()[i][j] && (state == 0 || state == 1)
    {
      if !ValidIndex(i, j) {
        return InvalidIndex;
      }
      return gameGrid[i, j];
    }

    /**
     * The number of live cells among the grid positions of the 3x3 block
     * around (i, j), the centre excluded, scanned row by row.
     */
    method NumberOfLiveNeighborsOf(i: int, j: int) returns (count: int)
      requires Shaped()
      ensures count == NeighborCount(Contents(), i, j)
    {
      ghost var g := Contents();
      count := 0;
      for rowI := i - 1 to i + 2
        invariant count == BlockScan(g, i, j, rowI)
      {
        for colJ := j - 1 to j + 2
          invariant count == BlockScan(g, i, j, rowI) + RowScan(g, i, j, rowI, colJ)
        {
          if ValidIndex(rowI, colJ) && !(rowI == i && colJ == j) {
            count := count + gameGrid[rowI, colJ];
          }
        }
      }
    }

    /**
     * Advances one generation: every new cell is computed from the old grid
     * only, into a separate buffer that is then copied back. `updated`
     * becomes 1 exactly when some cell changed, else 0.
     */
    method Tick()
      requires Valid()
      modifies this, gameGrid
      ensures Valid()
      ensures Contents() == NextGen(old(Contents()))
      ensures updated == if Contents() != old(Contents()) then Changed else Unchanged
    {
      ghost var g := Contents();
      var nextGen := new int[rows, cols]((_, _) => 0);
      updated := Unchanged;
      FillNextGen(nextGen);
      CopyBack(nextGen);
      NextGenIsGeneration(g, rows, cols);
      SameCells(Contents(), NextGen(g));
      ChangesIffDiffers(g);
    }

    /**
     * The first pass of Tick: writes the next state of every cell into
     * nextGen, reading only the grid, and sets `updated` to 1 when some cell
     * changes; otherwise `updated` keeps its value.
     */
    method FillNextGen(nextGen: array2<int>)
      requires Shaped() && nextGen != gameGrid
      requires nextGen.Length0 == rows && nextGen.Length1 == cols
      modifies this, nextGen
      ensures forall r, c :: 0 <= r < rows && 0 <= c < cols ==> nextGen[r, c] == NextCell(Contents(), r, c)
      ensures updated == if Changes(Contents()) then Changed else old(updated)
    {
      ghost var g := Contents();
      ghost var before := updated;
      for i := 0 to rows
        invariant forall r, c :: 0 <= r < i && 0 <= c < cols ==> nextGen[r, c] == NextCell(g, r, c)
        invariant updated == if RowsChange(g, i) then Changed else before
      {
        FillRow(nextGen, i);
      }
      ScanFindsChange(g);
    }

    /**
     * One row of the first pass of Tick: writes the next state of every cell
     * of row i into nextGen and sets `updated` to 1 when one of them changes.
     */
    method FillRow(nextGen: array2<int>, i: nat)
      requires Shaped() && nextGen != gameGrid
      requires nextGen.Length0 == rows && nextGen.Length1 == cols && i < rows
      modifies this, nextGen
      ensures forall r, c :: 0 <= r < rows && r != i && 0 <= c < cols ==> nextGen[r, c] == old(nextGen[r, c])
      ensures forall c :: 0 <= c < cols ==> nextGen[i, c] == NextCell(Contents(), i, c)
      ensures updated == if RowChanges(Contents(), i, cols) then Changed else old(updated)
    {
      ghost var g := Contents();
      for j := 0 to cols
        invariant forall r, c :: 0 <= r < rows && r != i && 0 <= c < cols ==> nextGen[r, c] == old(nextGen[r, c])
        invariant forall c :: 0 <= c < j ==> nextGen[i, c] == NextCell(g, i, c)
        invariant updated == if RowChanges(g, i, j) then Changed else old(updated)
      {
        var currCell := gameGrid[i, j];
        var count := NumberOfLiveNeighborsOf(i, j);
        NextCellBranches(g, i, j);
        if currCell == 1 && (count < 2 || count > 3) {
          nextGen[i, j] := 0;
          updated := Changed;
        } else if currCell == 0 && count == 3 {
          nextGen[i, j] := 1;
          updated := Changed;
        } else {
          nextGen[i, j] := currCell;
        }
      }
    }

    /** Copies `from`, cell by cell, into the grid. */
    method CopyBack(from: array2<int>)
      requires Shaped() && from != gameGrid
      requires from.Length0 == rows && from.Length1 == cols
      modifies gameGrid
      ensures forall r, c :: 0 <= r < rows && 0 <= c < cols ==> gameGrid[r, c] == from[r, c]
    {
      for i := 0 to rows
        invariant forall r, c :: 0 <= r < i && 0 <= c < cols ==> gameGrid[r, c] == from[r, c]
      {
        for j := 0 to cols
          invariant forall r, c :: 0 <= r < i && 0 <= c < cols ==> gameGrid[r, c] == from[r, c]
          invariant forall c :: 0 <= c < j ==> gameGrid[i, c] == from[i, c]
        {
          gameGrid[i, j] := from[i, j];
        }
      }
    }

    /** Kills every cell; the dimensions and `updated` stay as they were. */
    method Reset()
      requires Valid()
      modifies gameGrid
      ensures Valid() && updated == old(updated)
      ensures Contents() == Dead(rows, cols)
    {
      for i := 0 to rows
        invariant forall r, c :: 0 <= r < i && 0 <= c < cols ==> gameGrid[r, c] == 0
      {
        for j := 0 to cols
          invariant forall r, c :: 0 <= r < i && 0 <= c < cols ==> gameGrid[r, c] == 0
          invariant forall c :: 0 <= c < j ==> gameGrid[i, c] == 0
        {
          gameGrid[i, j] := 0;
        }
      }
      DeadIsGeneration(rows, cols);
      SameCells(Contents(), Dead(rows, cols));
    }
  }
}
