/** Food placement by rejection sampling. The random numbers the game draws
    (two per attempt, each in [0, 1)) are given as a sequence `draws`; the
    placement is the first attempt whose cell is not under the snake. */
module Food {
  import opened Grid

  predicate IsRandom(r: real) {
    0.0 <= r < 1.0
  }

  /** A random grid coordinate in [0, max): the random number scaled to a cell
      index, rounded down, and scaled back to pixels. */
  function RandomCoordinate(max: int, random: real): (c: int)
    requires max > 0 && max % UnitSize == 0 && IsRandom(random)
    ensures 0 <= c < max && c % UnitSize == 0
  {
    ScaledBelow(random, max / UnitSize);
    (random * (max / UnitSize) as real).Floor * UnitSize
  }

  lemma ScaledBelow(random: real, cells: int)
    requires IsRandom(random) && cells > 0
    ensures 0.0 <= random * cells as real < cells as real
  {
  }

  /** Each grid coordinate is produced by some random number. */
  lemma CoordinateReachable(max: int, c: int)
    requires max > 0 && max % UnitSize == 0
    requires 0 <= c < max && c % UnitSize == 0
    ensures exists r :: IsRandom(r) && RandomCoordinate(max, r) == c
  {
    var index := c / UnitSize;
    var r := IndexCoordinate(max, index);
    assert index * UnitSize == c;
  }

  /** The random number index / cells lands on cell number index. */
  lemma IndexCoordinate(max: int, index: int) returns (r: real)
    requires max > 0 && max % UnitSize == 0 && 0 <= index < max / UnitSize
    ensures IsRandom(r) && RandomCoordinate(max, r) == index * UnitSize
  {
    var cells := max / UnitSize;
    r := index as real / cells as real;
    IndexScales(index, cells);
    assert (r * cells as real).Floor == index by {
      assert (index as real).Floor == index;
    }
    FloorCoordinate(max, r, index);
  }

  lemma FloorCoordinate(max: int, r: real, index: int)
    requires max > 0 && max % UnitSize == 0 && IsRandom(r)
    requires (r * (max / UnitSize) as real).Floor == index
    ensures RandomCoordinate(max, r) == index * UnitSize
  {
  }

  lemma IndexScales(index: int, cells: int)
    requires 0 <= index < cells
    ensures IsRandom(index as real / cells as real)
    ensures (index as real / cells as real) * cells as real == index as real
  {
  }

  predicate IsDraws(draws: seq<(real, real)>) {
    forall k :: 0 <= k < |draws| ==> IsRandom(draws[k].0) && IsRandom(draws[k].1)
  }

  /** The cell one attempt lands on: x from the first number, y from the second. */
  function DrawCell(draw: (real, real), width: int, height: int): (c: Cell)
    requires IsBoard(width, height) && IsRandom(draw.0) && IsRandom(draw.1)
    ensures OnBoard(c, width, height) && Aligned(c)
  {
    Cell(RandomCoordinate(width, draw.0), RandomCoordinate(height, draw.1))
  }

  /** The sampling loop ends within these draws: some attempt lands off the snake. */
  predicate Places(draws: seq<(real, real)>, snake: seq<Cell>, width: int, height: int) {
    && IsBoard(width, height)
    && IsDraws(draws)
    && exists k :: 0 <= k < |draws| && DrawCell(draws[k], width, height) !in snake
  }

  /** The cell of the first attempt that is not under the snake. */
  function FirstFree(draws: seq<(real, real)>, snake: seq<Cell>, width: int, height: int): (c: Cell)
    requires Places(draws, snake, width, height)
    ensures IsFoodCell(c, snake, width, height)
    decreases |draws|
  {
    var first := DrawCell(draws[0], width, height);
    if first !in snake then first
    else
      assert Places(draws[1..], snake, width, height) by {
        var k :| 0 <= k < |draws| && DrawCell(draws[k], width, height) !in snake;
        assert draws[1..][k - 1] == draws[k];
      }
      FirstFree(draws[1..], snake, width, height)
  }

  /** Rejection sampling: draw a cell until one is not under the snake. */
  method PlaceFood(snake: seq<Cell>, width: int, height: int, draws: seq<(real, real)>)
    returns (x: int, y: int)
    requires Places(draws, snake, width, height)
    ensures Cell(x, y) == FirstFree(draws, snake, width, height)
    ensures IsFoodCell(Cell(x, y), snake, width, height)
  {
    x, y := 0, 0;
    var k := 0;
    var overlap := true;
    while overlap
      invariant 0 <= k <= |draws|
      invariant overlap ==> Places(draws[k..], snake, width, height)
      invariant overlap ==> FirstFree(draws[k..], snake, width, height) == FirstFree(draws, snake, width, height)
      invariant !overlap ==> Cell(x, y) == FirstFree(draws, snake, width, height)
      decreases |draws| - k, overlap
    {
      x := RandomCoordinate(width, draws[k].0);
      y := RandomCoordinate(height, draws[k].1);
      overlap := Cell(x, y) in snake;
      if overlap {
        assert draws[k..][1..] == draws[k + 1..];
      }
      k := k + 1;
    }
  }

  /** Placement ends for some draws exactly when the board has a free cell; on a
      full board the sampling loop never ends. */
  lemma PlacesIffFreeCell(snake: seq<Cell>, width: int, height: int)
    requires IsBoard(width, height)
    ensures HasFreeCell(snake, width, height) <==> exists draws :: Places(draws, snake, width, height)
  {
    if HasFreeCell(snake, width, height) {
      var c :| IsFoodCell(c, snake, width, height);
      CoordinateReachable(width, c.x);
      CoordinateReachable(height, c.y);
      var rx :| IsRandom(rx) && RandomCoordinate(width, rx) == c.x;
      var ry :| IsRandom(ry) && RandomCoordinate(height, ry) == c.y;
      var draws := [(rx, ry)];
      assert DrawCell(draws[0], width, height) == c;
      assert Places(draws, snake, width, height);
    }
    if draws :| Places(draws, snake, width, height) {
      var k :| 0 <= k < |draws| && DrawCell(draws[k], width, height) !in snake;
      assert IsFoodCell(DrawCell(draws[k], width, height), snake, width, height);
    }
  }
}
