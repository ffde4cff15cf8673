/** The board: a grid of square cells of side UnitSize pixels, cells named by
    the pixel coordinates of their top-left corner, and the directions a snake
    can travel in. */
module Grid {

  /** Side of one grid cell, in pixels. */
  const UnitSize: int := 25

  /** A grid position (a segment of the snake, or the food). */
  datatype Cell = Cell(x: int, y: int)

  /** The canvas dimensions: positive multiples of the unit size. */
  predicate IsBoard(width: int, height: int) {
    width > 0 && height > 0 && width % UnitSize == 0 && height % UnitSize == 0
  }

  predicate OnBoard(c: Cell, width: int, height: int) {
    0 <= c.x < width && 0 <= c.y < height
  }

  predicate Aligned(c: Cell) {
    c.x % UnitSize == 0 && c.y % UnitSize == 0
  }

  /** A cell the food may occupy: on the board, on the grid, not under the snake. */
  predicate IsFoodCell(c: Cell, snake: seq<Cell>, width: int, height: int) {
    OnBoard(c, width, height) && Aligned(c) && c !in snake
  }

  ghost predicate HasFreeCell(snake: seq<Cell>, width: int, height: int) {
    exists c :: IsFoodCell(c, snake, width, height)
  }

  /** A velocity one cell long along exactly one axis: up, down, left or right. */
  predicate IsDirection(dx: int, dy: int) {
    || (dx == 0 && (dy == UnitSize || dy == -UnitSize))
    || (dy == 0 && (dx == UnitSize || dx == -UnitSize))
  }

  predicate Adjacent(a: Cell, b: Cell) {
    IsDirection(a.x - b.x, a.y - b.y)
  }

  predicate Distinct(cells: seq<Cell>) {
    forall i, j :: 0 <= i < j < |cells| ==> cells[i] != cells[j]
  }

  /** The first n cells of the row at height y, from left to right. */
  function Row(y: int, n: nat): (r: seq<Cell>)
    ensures |r| == n && Distinct(r)
    ensures forall c :: c in r ==> c.y == y && 0 <= c.x < n * UnitSize && c.x % UnitSize == 0
  {
    if n == 0 then [] else Row(y, n - 1) + [Cell((n - 1) * UnitSize, y)]
  }

  /** Every cell of a board of cols by rows cells, row after row. */
  function Cells(cols: nat, rows: nat): (r: seq<Cell>)
    ensures |r| == cols * rows && Distinct(r)
    ensures forall c :: c in r ==> 0 <= c.x < cols * UnitSize && 0 <= c.y < rows * UnitSize && Aligned(c)
  {
    if rows == 0 then []
    else
      var above, last := Cells(cols, rows - 1), Row((rows - 1) * UnitSize, cols);
      StackedDistinct(above, last, (rows - 1) * UnitSize);
      assert cols * rows == cols * (rows - 1) + cols;
      above + last
  }

  /** Rows lying wholly above height y stay distinct when the row at y is appended. */
  lemma StackedDistinct(above: seq<Cell>, last: seq<Cell>, y: int)
    requires Distinct(above) && Distinct(last)
    requires forall c :: c in above ==> c.y < y
    requires forall c :: c in last ==> c.y == y
    ensures Distinct(above + last)
  {
  }

  /** Pigeonhole: a snake with fewer segments than there are distinct cells
      leaves one of them uncovered. */
  lemma {:induction false} Pigeonhole(cells: seq<Cell>, taken: seq<Cell>)
    requires Distinct(cells) && |taken| < |cells|
    ensures exists c :: c in cells && c !in taken
  {
    var n := |cells|;
    var last := cells[n - 1];
    if last in taken {
      var i :| 0 <= i < |taken| && taken[i] == last;
      var rest := taken[..i] + taken[i + 1..];
      assert taken == taken[..i] + [last] + taken[i + 1..];
      Pigeonhole(cells[..n - 1], rest);
      var c :| c in cells[..n - 1] && c !in rest;
      assert c in cells && c != last;
    } else {
      assert last in cells;
    }
  }

  /** Food can always be placed while the snake is shorter than the board has cells. */
  lemma FreeCellWhenRoom(snake: seq<Cell>, width: int, height: int)
    requires IsBoard(width, height)
    requires |snake| < (width / UnitSize) * (height / UnitSize)
    ensures HasFreeCell(snake, width, height)
  {
    var cells := Cells(width / UnitSize, height / UnitSize);
    Pigeonhole(cells, snake);
    var c :| c in cells && c !in snake;
    assert IsFoodCell(c, snake, width, height);
  }
}
