/** Where each numbered tile sits on the board: rows of ten filled
    serpentine-fashion from the bottom (left to right on even rows, right to
    left on odd rows), coloured as a checkerboard. */
module Layout {

  const TilesPerRow: int := 10

  datatype Colour = Light | Dark | Green

  /** A placed tile: its grid cell and its colour. */
  datatype Tile = Tile(row: int, col: int, colour: Colour)

  /** The start tile (tile 0) sits diagonally below-left of tile 1, in green. */
  const StartTile: Tile := Tile(-1, -1, Green)

  /** The row of numbered tile `i`, counted from the bottom. */
  function Row(i: int): int
    requires 1 <= i
  {
    (i - 1) / TilesPerRow
  }

  /** The column of numbered tile `i`: counted from the left on even rows and
      from the right on odd rows. */
  function Col(i: int): int
    requires 1 <= i
  {
    var c := (i - 1) % TilesPerRow;
    if Row(i) % 2 == 0 then c else TilesPerRow - 1 - c
  }

  /** Checkerboard colouring: light where row plus column is even. */
  function Shade(row: int, col: int): (c: Colour)
    ensures c == Light <==> (row + col) % 2 == 0
    ensures c != Green
  {
    if (row + col) % 2 == 0 then Light else Dark
  }

  /** The tile placed for number `i`. */
  function TileAt(i: int): Tile
    requires 1 <= i
  {
    Tile(Row(i), Col(i), Shade(Row(i), Col(i)))
  }

  /** The number of the tile in cell (`row`, `col`): the inverse of the
      layout. */
  function NumberAt(row: int, col: int): (i: int)
    requires 0 <= row && 0 <= col < TilesPerRow
    ensures 1 + TilesPerRow * row <= i <= TilesPerRow * (row + 1)
  {
    TilesPerRow * row + (if row % 2 == 0 then col else TilesPerRow - 1 - col) + 1
  }

  /** Every numbered tile lies in a column of the grid, and on a 100-tile
      board in one of its ten rows. */
  lemma CellInRange(i: int)
    requires 1 <= i
    ensures 0 <= Row(i) && 0 <= Col(i) < TilesPerRow
    ensures i <= 100 ==> Row(i) < 10
  {
  }

  /** Reading back the number of a tile's cell gives the tile's number. */
  lemma NumberAtCell(i: int)
    requires 1 <= i
    ensures 0 <= Row(i) && 0 <= Col(i) < TilesPerRow
    ensures NumberAt(Row(i), Col(i)) == i
  {
    var q, c := (i - 1) / TilesPerRow, (i - 1) % TilesPerRow;
    assert i - 1 == TilesPerRow * q + c;
  }

  /** Every cell of the grid holds the tile whose number `NumberAt` gives. */
  lemma CellAtNumber(row: int, col: int)
    requires 0 <= row && 0 <= col < TilesPerRow
    ensures Row(NumberAt(row, col)) == row && Col(NumberAt(row, col)) == col
  {
    var c := if row % 2 == 0 then col else TilesPerRow - 1 - col;
    var i := NumberAt(row, col);
    assert i - 1 == TilesPerRow * row + c && 0 <= c < TilesPerRow;
    assert (i - 1) / TilesPerRow == row;
    assert (i - 1) % TilesPerRow == c;
  }

  /** No two numbered tiles share a cell. */
  lemma CellInjective(i: int, j: int)
    requires 1 <= i && 1 <= j
    requires Row(i) == Row(j) && Col(i) == Col(j)
    ensures i == j
  {
    NumberAtCell(i);
    NumberAtCell(j);
  }

  /** The tiles of a 100-tile board fill the ten-by-ten grid exactly: every
      cell holds one of the tiles 1 to 100. */
  lemma BoardCoversGrid(row: int, col: int)
    requires 0 <= row < 10 && 0 <= col < TilesPerRow
    ensures 1 <= NumberAt(row, col) <= 100
    ensures TileAt(NumberAt(row, col)).row == row && TileAt(NumberAt(row, col)).col == col
  {
    CellAtNumber(row, col);
  }

  /** Consecutive tiles are orthogonal neighbours: at the end of a row the
      next tile sits directly above, elsewhere beside it in the direction of
      the row. */
  lemma ConsecutiveAdjacent(i: int)
    requires 1 <= i
    ensures i % TilesPerRow == 0 ==> Row(i + 1) == Row(i) + 1 && Col(i + 1) == Col(i)
    ensures i % TilesPerRow != 0 ==>
              Row(i + 1) == Row(i) &&
              Col(i + 1) == Col(i) + (if Row(i) % 2 == 0 then 1 else -1)
  {
    var q, c := (i - 1) / TilesPerRow, (i - 1) % TilesPerRow;
    assert i - 1 == TilesPerRow * q + c;
    if c == TilesPerRow - 1 {
      assert i == TilesPerRow * (q + 1);
      assert i / TilesPerRow == q + 1 && i % TilesPerRow == 0;
    } else {
      assert i / TilesPerRow == q && i % TilesPerRow == c + 1;
    }
  }

  /** The checkerboard alternates along the path: consecutive tiles never
      share a colour. */
  lemma ConsecutiveColoursDiffer(i: int)
    requires 1 <= i
    ensures TileAt(i).colour != TileAt(i + 1).colour
  {
    ConsecutiveAdjacent(i);
  }
}
