// The playing grid of three-game.js: a 10 x 10 board whose cells carry the
// record { index, revealed, flagged } that the rules read and update.

module Board {

  /** Cells per row and per column (the local `boardSize` of createGameBoard). */
  const BoardSize: nat := 10

  /** Number of cells on the board (the global `totalCells`). */
  const TotalCells: nat := 100

  /** The record stored in each cell's `userData`. */
  datatype Cell = Cell(index: int, revealed: bool, flagged: bool)

  /** A cell as createGameBoard makes it: hidden and without a flag. */
  function FreshCell(index: int): (c: Cell)
    ensures c.index == index && !c.revealed && !c.flagged
  {
    Cell(index, false, false)
  }

  /** The 1-based index given to the cell in row i, column j (row-major). */
  function CellIndex(i: int, j: int): (index: int)
    ensures 0 <= i < BoardSize && 0 <= j < BoardSize ==> 1 <= index <= TotalCells
  {
    i * BoardSize + j + 1
  }

  /** The row of the cell with a given index: the inverse of CellIndex, first half. */
  function CellRow(index: int): int
  {
    (index - 1) / BoardSize
  }

  /** The column of the cell with a given index: the inverse of CellIndex, second half. */
  function CellColumn(index: int): int
  {
    (index - 1) % BoardSize
  }

  /** Every position of the grid gets an index in 1..TotalCells, and that
      index determines the position again. */
  lemma CellIndexInverse(i: int, j: int)
    requires 0 <= i < BoardSize && 0 <= j < BoardSize
    ensures 1 <= CellIndex(i, j) <= TotalCells
    ensures CellRow(CellIndex(i, j)) == i && CellColumn(CellIndex(i, j)) == j
  {
  }

  /** Every index in 1..TotalCells is the index of some grid position. */
  lemma CellIndexOnto(index: int)
    requires 1 <= index <= TotalCells
    ensures 0 <= CellRow(index) < BoardSize && 0 <= CellColumn(index) < BoardSize
    ensures CellIndex(CellRow(index), CellColumn(index)) == index
  {
  }

  /** Two different positions never share an index. */
  lemma CellIndicesDistinct(i: int, j: int, i': int, j': int)
    requires 0 <= i < BoardSize && 0 <= j < BoardSize
    requires 0 <= i' < BoardSize && 0 <= j' < BoardSize
    requires CellIndex(i, j) == CellIndex(i', j')
    ensures i == i' && j == j'
  {
  }

  /** createGameBoard: row by row, column by column, creates the cells in
      order; the cell in row i, column j lands in slot i * BoardSize + j and
      is numbered CellIndex(i, j). */
  method CreateGameBoard() returns (cells: array<Cell>)
    ensures fresh(cells)
    ensures cells.Length == TotalCells
    ensures forall k :: 0 <= k < cells.Length ==> cells[k] == FreshCell(k + 1)
  {
    cells := new Cell[TotalCells];
    for i := 0 to BoardSize
      invariant forall k :: 0 <= k < i * BoardSize ==> cells[k] == FreshCell(k + 1)
    {
      for j := 0 to BoardSize
        invariant forall k :: 0 <= k < i * BoardSize + j ==> cells[k] == FreshCell(k + 1)
      {
        cells[i * BoardSize + j] := FreshCell(CellIndex(i, j));
      }
    }
  }
}
