/**
 * The rules of Conway's Game of Life on a finite grid, as pure functions.
 *
 * A generation is a sequence of rows; every cell is 0 (dead) or 1 (alive).
 * Positions off the grid count as dead: the neighbourhood of a cell on the
 * edge is cut off there and never wraps to the opposite edge.
 */
module Life {

  /** One generation: rows of cells, row-major, indexed [row][column]. */
  type Generation = seq<seq<int>>

  /** g is a rows x cols grid whose every cell is 0 or 1. */
  ghost predicate IsGeneration(g: Generation, rows: nat, cols: nat) {
    |g| == rows &&
    (forall r :: 0 <= r < rows ==> |g[r]| == cols) &&
    (forall r, c :: 0 <= r < rows && 0 <= c < cols ==> g[r][c] == 0 || g[r][c] == 1)
  }

  /** (r, c) is a position of the grid g. */
  predicate InGrid(g: Generation, r: int, c: int) {
    0 <= r < |g| && 0 <= c < |g[r]|
  }

  /** The state of (r, c), with every position off the grid read as dead. */
  function At(g: Generation, r: int, c: int): int {
    if InGrid(g, r, c) then g[r][c] else 0
  }

  /**
   * The reference count of live neighbours: the states of the eight
   * positions of the Moore neighbourhood of (i, j), each read through At.
   */
  function MooreCount(g: Generation, i: int, j: int): int {
    At(g, i - 1, j - 1) + At(g, i - 1, j) + At(g, i - 1, j + 1) +
    At(g, i, j - 1) + At(g, i, j + 1) +
    At(g, i + 1, j - 1) + At(g, i + 1, j) + At(g, i + 1, j + 1)
  }

  // The engine counts by scanning the 3x3 block around (i, j): rows i - 1 to
  // i + 1, and within a row columns j - 1 to j + 1. The centre and positions
  // off the grid add nothing.

  /** What the scan adds at (r, c) when counting around (i, j). */
  function ScanTerm(g: Generation, i: int, j: int, r: int, c: int): int {
    if !InGrid(g, r, c) || (r == i && c == j) then 0 else g[r][c]
  }

  /** The scan of row r of the block around (i, j), from column j - 1 up to (not including) upto. */
  function RowScan(g: Generation, i: int, j: int, r: int, upto: int): int
    decreases upto - j
  {
    if upto <= j - 1 then 0 else RowScan(g, i, j, r, upto - 1) + ScanTerm(g, i, j, r, upto - 1)
  }

  /** The scan of the rows of the block around (i, j), from row i - 1 up to (not including) upto. */
  function BlockScan(g: Generation, i: int, j: int, upto: int): int
    decreases upto - i
  {
    if upto <= i - 1 then 0 else BlockScan(g, i, j, upto - 1) + RowScan(g, i, j, upto - 1, j + 2)
  }

  /** The number of live neighbours of (i, j), as the engine's scan of the block around it finds it. */
  function NeighborCount(g: Generation, i: int, j: int): int {
    BlockScan(g, i, j, i + 2)
  }

  /** A whole row of the scan is its three terms. */
  lemma {:induction false} RowScanWhole(g: Generation, i: int, j: int, r: int)
    ensures RowScan(g, i, j, r, j + 2) ==
      ScanTerm(g, i, j, r, j - 1) + ScanTerm(g, i, j, r, j) + ScanTerm(g, i, j, r, j + 1)
  {
    assert RowScan(g, i, j, r, j - 1) == 0;
    assert RowScan(g, i, j, r, j) == ScanTerm(g, i, j, r, j - 1);
    assert RowScan(g, i, j, r, j + 1) == RowScan(g, i, j, r, j) + ScanTerm(g, i, j, r, j);
  }

  /** The engine's scan counts exactly the eight Moore neighbours, the centre left out. */
  lemma {:induction false} NeighborCountIsMooreCount(g: Generation, i: int, j: int)
    ensures NeighborCount(g, i, j) == MooreCount(g, i, j)
  {
    RowScanWhole(g, i, j, i - 1);
    RowScanWhole(g, i, j, i);
    RowScanWhole(g, i, j, i + 1);
    assert BlockScan(g, i, j, i - 1) == 0;
    assert BlockScan(g, i, j, i) == RowScan(g, i, j, i - 1, j + 2);
    assert BlockScan(g, i, j, i + 1) == BlockScan(g, i, j, i) + RowScan(g, i, j, i, j + 2);
  }

  /** On a grid of 0/1 cells a position has between 0 and 8 live neighbours. */
  lemma NeighborCountRange(g: Generation, rows: nat, cols: nat, i: int, j: int)
    requires IsGeneration(g, rows, cols)
    ensures 0 <= NeighborCount(g, i, j) <= 8
  {
    NeighborCountIsMooreCount(g, i, j);
  }

  /** A corner cell has only three positions around it on the grid, so at most three live neighbours. */
  lemma CornerHasAtMostThree(g: Generation, rows: nat, cols: nat, i: int, j: int)
    requires IsGeneration(g, rows, cols)
    requires 0 < rows && 0 < cols
    requires i == 0 || i == rows - 1
    requires j == 0 || j == cols - 1
    ensures NeighborCount(g, i, j) <= 3
  {
    NeighborCountIsMooreCount(g, i, j);
  }

  /**
   * No wrap-around: the count around (i, j) depends only on the grid cells
   * next to (i, j); two grids of the same shape that agree there give the
   * same count, whatever the rest of them (the opposite edges included) holds.
   */
  lemma NeighborCountIsLocal(g: Generation, h: Generation, rows: nat, cols: nat, i: int, j: int)
    requires IsGeneration(g, rows, cols) && IsGeneration(h, rows, cols)
    requires forall r, c :: 0 <= r < rows && 0 <= c < cols && i - 1 <= r <= i + 1 && j - 1 <= c <= j + 1 ==> g[r][c] == h[r][c]
    ensures NeighborCount(g, i, j) == NeighborCount(h, i, j)
  {
    NeighborCountIsMooreCount(g, i, j);
    NeighborCountIsMooreCount(h, i, j);
  }

  /**
   * The state of (i, j) in the next generation, decided from g alone by the
   * engine's branches: a live cell with fewer than 2 or more than 3 live
   * neighbours dies, a dead cell with exactly 3 is born, any other keeps its state.
   */
  function NextCell(g: Generation, i: int, j: int): int
    requires InGrid(g, i, j)
  {
    var cell := g[i][j];
    var count := NeighborCount(g, i, j);
    if cell == 1 && (count < 2 || count > 3) then 0
    else if cell == 0 && count == 3 then 1
    else cell
  }

  /**
   * The rule in its usual form (B3/S23): a cell is alive in the next
   * generation exactly when it has 3 live neighbours, or it is alive and has 2.
   */
  lemma NextCellIsB3S23(g: Generation, rows: nat, cols: nat, i: int, j: int)
    requires IsGeneration(g, rows, cols)
    requires 0 <= i < rows && 0 <= j < cols
    ensures var n := NeighborCount(g, i, j);
      NextCell(g, i, j) == if n == 3 || (g[i][j] == 1 && n == 2) then 1 else 0
  {
  }

  /**
   * The three branches of the rule: a live cell with too few or too many
   * neighbours dies, a dead cell with three is born, and in every other case
   * the cell keeps its state; the first two are exactly the cases that change it.
   */
  lemma NextCellBranches(g: Generation, i: int, j: int)
    requires InGrid(g, i, j)
    ensures var cell, n := g[i][j], NeighborCount(g, i, j);
      if cell == 1 && (n < 2 || n > 3) then NextCell(g, i, j) == 0 && Differs(g, i, j)
      else if cell == 0 && n == 3 then NextCell(g, i, j) == 1 && Differs(g, i, j)
      else NextCell(g, i, j) == cell && !Differs(g, i, j)
  {
  }

  /** The next generation: every cell computed from g, none from a partly updated grid. */
  function NextGen(g: Generation): Generation {
    seq(|g|, r requires 0 <= r < |g| =>
      seq(|g[r]|, c requires 0 <= c < |g[r]| => NextCell(g, r, c)))
  }

  /** The next generation has the same shape as g and again only 0/1 cells. */
  lemma NextGenIsGeneration(g: Generation, rows: nat, cols: nat)
    requires IsGeneration(g, rows, cols)
    ensures IsGeneration(NextGen(g), rows, cols)
  {
    forall r, c | 0 <= r < rows && 0 <= c < cols
      ensures NextGen(g)[r][c] == 0 || NextGen(g)[r][c] == 1
    {
      NextCellIsB3S23(g, rows, cols, r, c);
    }
  }

  /** Some cell of g changes state when the rule is applied. */
  ghost predicate Changes(g: Generation) {
    exists r, c :: InGrid(g, r, c) && Differs(g, r, c)
  }

  /** The cell at (r, c) changes state when the rule is applied. */
  ghost predicate Differs(g: Generation, r: int, c: int)
    requires InGrid(g, r, c)
  {
    NextCell(g, r, c) != g[r][c]
  }

  /** Some cell of row r left of column j changes state; the engine's scan of one row. */
  ghost predicate RowChanges(g: Generation, r: int, j: int)
    requires 0 <= r < |g| && 0 <= j <= |g[r]|
    decreases j
  {
    j > 0 && (RowChanges(g, r, j - 1) || Differs(g, r, j - 1))
  }

  /** Some cell of a row above row i changes state; the engine's scan of whole rows. */
  ghost predicate RowsChange(g: Generation, i: int)
    requires 0 <= i <= |g|
    decreases i
  {
    i > 0 && (RowsChange(g, i - 1) || RowChanges(g, i - 1, |g[i - 1]|))
  }

  /** The scan of row r up to column j finds a change exactly when one is there. */
  lemma {:induction false} RowChangesIff(g: Generation, r: int, j: int)
    requires 0 <= r < |g| && 0 <= j <= |g[r]|
    ensures RowChanges(g, r, j) <==> exists c :: 0 <= c < j && Differs(g, r, c)
    decreases j
  {
    if j > 0 {
      RowChangesIff(g, r, j - 1);
    }
  }

  /** The scan of the rows above row i finds a change exactly when one is there. */
  lemma {:induction false} RowsChangeIff(g: Generation, i: int)
    requires 0 <= i <= |g|
    ensures RowsChange(g, i) <==> exists r, c :: 0 <= r < i && InGrid(g, r, c) && Differs(g, r, c)
    decreases i
  {
    if i > 0 {
      RowsChangeIff(g, i - 1);
      RowChangesIff(g, i - 1, |g[i - 1]|);
      if RowsChange(g, i) {
        if RowsChange(g, i - 1) {
          var r, c :| 0 <= r < i - 1 && InGrid(g, r, c) && Differs(g, r, c);
          assert 0 <= r < i && InGrid(g, r, c) && Differs(g, r, c);
        } else {
          var c :| 0 <= c < |g[i - 1]| && Differs(g, i - 1, c);
          assert 0 <= i - 1 < i && InGrid(g, i - 1, c) && Differs(g, i - 1, c);
        }
      }
      if exists r, c :: 0 <= r < i && InGrid(g, r, c) && Differs(g, r, c) {
        var r, c :| 0 <= r < i && InGrid(g, r, c) && Differs(g, r, c);
        if r < i - 1 {
          assert RowsChange(g, i - 1);
        } else {
          assert 0 <= c < |g[i - 1]| && Differs(g, i - 1, c);
          assert RowChanges(g, i - 1, |g[i - 1]|);
        }
      }
    }
  }

  /** Scanning every row finds a change exactly when the rule changes some cell. */
  lemma ScanFindsChange(g: Generation)
    ensures RowsChange(g, |g|) <==> Changes(g)
  {
    RowsChangeIff(g, |g|);
  }

  /** Applying the rule changes some cell exactly when the next generation differs from g. */
  lemma {:induction false} ChangesIffDiffers(g: Generation)
    ensures Changes(g) <==> NextGen(g) != g
  {
    if Changes(g) {
      var r, c :| InGrid(g, r, c) && Differs(g, r, c);
      assert NextGen(g)[r][c] != g[r][c];
    } else {
      forall r, c | 0 <= r < |g| && 0 <= c < |g[r]| ensures NextGen(g)[r][c] == g[r][c] {
        assert !Differs(g, r, c);
      }
      SameCells(NextGen(g), g);
    }
  }

  /** Two grids of the same shape that agree cell by cell are the same grid. */
  lemma {:induction false} SameCells(g: Generation, h: Generation)
    requires |g| == |h|
    requires forall r :: 0 <= r < |g| ==> |g[r]| == |h[r]|
    requires forall r, c :: 0 <= r < |g| && 0 <= c < |g[r]| ==> g[r][c] == h[r][c]
    ensures g == h
  {
    forall r | 0 <= r < |g| ensures g[r] == h[r] {
      assert forall c :: 0 <= c < |g[r]| ==> g[r][c] == h[r][c];
    }
  }

  /** The all-dead rows x cols grid. */
  function Dead(rows: nat, cols: nat): Generation {
    seq(rows, _ => seq(cols, _ => 0))
  }

  /** The all-dead grid is a generation, and it has no live cell. */
  lemma DeadIsGeneration(rows: nat, cols: nat)
    ensures IsGeneration(Dead(rows, cols), rows, cols)
    ensures forall r, c :: 0 <= r < rows && 0 <= c < cols ==> Dead(rows, cols)[r][c] == 0
  {
  }

  /** The all-dead grid is a still life: applying the rule changes nothing. */
  lemma {:induction false} DeadStaysDead(rows: nat, cols: nat)
    ensures NextGen(Dead(rows, cols)) == Dead(rows, cols)
    ensures !Changes(Dead(rows, cols))
  {
    var d := Dead(rows, cols);
    forall r, c | 0 <= r < rows && 0 <= c < cols ensures NextCell(d, r, c) == 0 {
      NeighborCountIsMooreCount(d, r, c);
    }
    SameCells(NextGen(d), d);
    ChangesIffDiffers(d);
  }

  /** The new state of a toggled cell: 1 becomes 0, anything else becomes 1. */
  function Flip(cell: int): int {
    if cell == 1 then 0 else 1
  }

  /** g with the state of (i, j) flipped. */
  function Toggled(g: Generation, i: int, j: int): Generation
    requires InGrid(g, i, j)
  {
    g[i := g[i][j := Flip(g[i][j])]]
  }

  /**
   * Toggling flips exactly one cell: (i, j) goes from 0 to 1 or from 1 to 0,
   * every other cell and the shape stay as they were.
   */
  lemma ToggledFlipsOneCell(g: Generation, rows: nat, cols: nat, i: int, j: int)
    requires IsGeneration(g, rows, cols)
    requires 0 <= i < rows && 0 <= j < cols
    ensures IsGeneration(Toggled(g, i, j), rows, cols)
    ensures Toggled(g, i, j)[i][j] == 1 - g[i][j]
    ensures forall r, c :: 0 <= r < rows && 0 <= c < cols && (r, c) != (i, j) ==> Toggled(g, i, j)[r][c] == g[r][c]
  {
  }

  /** Toggling the same cell twice restores the grid. */
  lemma ToggleTwiceRestores(g: Generation, rows: nat, cols: nat, i: int, j: int)
    requires IsGeneration(g, rows, cols)
    requires 0 <= i < rows && 0 <= j < cols
    ensures Toggled(Toggled(g, i, j), i, j) == g
  {
    ToggledFlipsOneCell(g, rows, cols, i, j);
    var t := Toggled(g, i, j);
    assert t[i][j] == 1 - g[i][j];
    SameCells(Toggled(t, i, j), g);
  }
}
