/**
 * The board of the Game of Life as a value: rows of cells indexed
 * `[y][x]`, `true` for a live cell, together with the operations that
 * rewrite a whole board (an empty board, the toggle of one cell, the
 * random fill).
 */
module Grids {
  import opened Wrappers

  type Grid = seq<seq<bool>>

  /** Pixel sizes from which the engine derives its dimensions. */
  const CellSize: nat := 20
  const Width: nat := 600
  const Height: nat := 400

  /** `g` has exactly `rows` rows of exactly `cols` cells. */
  predicate Shaped(g: Grid, rows: nat, cols: nat)
  {
    |g| == rows && forall y :: 0 <= y < |g| ==> |g[y]| == cols
  }

  /**
   * (x, y) names a cell of `g`: column x of row y. On a `Shaped` board this
   * is the engine's test against `rows` and `cols`; a row widened by the
   * as-written toggle is outside what the board functions describe.
   */
  predicate InBounds(g: Grid, x: int, y: int)
  {
    0 <= y < |g| && 0 <= x < |g[y]|
  }

  /** The cell (x, y) exists and is live; a position off the board is never live. */
  predicate Alive(g: Grid, x: int, y: int)
  {
    InBounds(g, x, y) && g[y][x]
  }

  /** No cell of `g` is live. */
  predicate AllDead(g: Grid)
  {
    forall y, x :: 0 <= y < |g| && 0 <= x < |g[y]| ==> !g[y][x]
  }

  /** Two boards with the same row lengths and the same cells are equal. */
  lemma GridExt(a: Grid, b: Grid)
    requires |a| == |b|
    requires forall y :: 0 <= y < |a| ==> |a[y]| == |b[y]|
    requires forall y, x :: 0 <= y < |a| && 0 <= x < |a[y]| ==> a[y][x] == b[y][x]
    ensures a == b
  {
    forall y | 0 <= y < |a|
      ensures a[y] == b[y]
    {
      assert |a[y]| == |b[y]|;
    }
  }

  /** The board `makeEmptyBoard` builds: `rows` rows of `cols` dead cells. */
  function EmptyGrid(rows: nat, cols: nat): (g: Grid)
    ensures Shaped(g, rows, cols) && AllDead(g)
  {
    seq(rows, _ => seq(cols, _ => false))
  }

  /**
   * The click toggle with strict bounds: an in-range cell is flipped, any
   * other coordinate leaves the board as it was.
   */
  function Toggle(g: Grid, x: int, y: int): (r: Grid)
    ensures |r| == |g| && forall j :: 0 <= j < |g| ==> |r[j]| == |g[j]|
    ensures forall j, i :: InBounds(g, i, j) ==>
              r[j][i] == if i == x && j == y then !g[j][i] else g[j][i]
    ensures !InBounds(g, x, y) ==> r == g
  {
    if InBounds(g, x, y) then g[y := g[y][x := !g[y][x]]] else g
  }

  lemma {:induction false} ToggleInvolution(g: Grid, x: int, y: int)
    ensures Toggle(Toggle(g, x, y), x, y) == g
  {
    var once := Toggle(g, x, y);
    GridExt(Toggle(once, x, y), g);
  }

  /**
   * The toggle as the click handler writes it, with the bounds test
   * `0 <= x <= cols && 0 <= y <= rows`. `None` stands for the TypeError
   * raised when `y == rows` (row `rows` does not exist); with `x == cols`
   * the assignment writes `!undefined`, that is `true`, one past the end
   * of the row and so widens it.
   */
  function ToggleAsWritten(g: Grid, rows: nat, cols: nat, x: int, y: int): (r: Option<Grid>)
    requires Shaped(g, rows, cols)
    ensures r.None? <==> 0 <= x <= cols && y == rows
    ensures !(0 <= x <= cols && 0 <= y <= rows) ==> r == Some(g)
    ensures 0 <= y < rows && x == cols ==> r == Some(g[y := g[y] + [true]])
  {
    if 0 <= x <= cols && 0 <= y <= rows then
      if y == rows then None
      else if x == cols then Some(g[y := g[y] + [true]])
      else Some(g[y := g[y][x := !g[y][x]]])
    else Some(g)
  }

  /** Inside the grid the handler as written is the strict toggle. */
  lemma ToggleAsWrittenInRange(g: Grid, rows: nat, cols: nat, x: int, y: int)
    requires Shaped(g, rows, cols) && 0 <= x < cols && 0 <= y < rows
    ensures ToggleAsWritten(g, rows, cols, x, y) == Some(Toggle(g, x, y))
  {
  }

  /**
   * The off-by-one of the as-written bounds test: a click on row `rows`
   * throws, and a click on column `cols` leaves a board whose row is too
   * long, where the strict toggle leaves the board unchanged and shaped.
   */
  lemma ToggleAsWrittenOffByOne(g: Grid, rows: nat, cols: nat)
    requires Shaped(g, rows, cols) && rows > 0
    ensures ToggleAsWritten(g, rows, cols, 0, rows) == None
    ensures ToggleAsWritten(g, rows, cols, cols, 0).Some?
    ensures ToggleAsWritten(g, rows, cols, cols, 0) == Some(g[0 := g[0] + [true]])
    ensures !Shaped(ToggleAsWritten(g, rows, cols, cols, 0).value, rows, cols)
    ensures Toggle(g, 0, rows) == g && Toggle(g, cols, 0) == g
  {
    var widened := ToggleAsWritten(g, rows, cols, cols, 0).value;
    assert |widened[0]| == cols + 1;
  }

  /** The board `handleRandom` leaves: a cell is live iff its draw is at least 0.5. */
  function Threshold(draws: seq<seq<real>>): (g: Grid)
    ensures |g| == |draws| && forall y :: 0 <= y < |g| ==> |g[y]| == |draws[y]|
    ensures forall y, x :: InBounds(g, x, y) ==> (g[y][x] <==> draws[y][x] >= 0.5)
  {
    seq(|draws|, y requires 0 <= y < |draws| =>
      seq(|draws[y]|, x requires 0 <= x < |draws[y]| => draws[y][x] >= 0.5))
  }
}
