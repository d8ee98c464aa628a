/**
 * One generation of the Game of Life (rule B3/S23) on a bounded board, as
 * the grid-update half of `runIteration` computes it: every new cell is
 * derived from the old board only.
 */
module Generation {
  import opened Grids
  import opened Neighbourhood

  /** The branches of `runIteration` for a cell that is `alive` with `n` live neighbours. */
  function Rule(alive: bool, n: nat): (r: bool)
    ensures r <==> n == 3 || (alive && n == 2)
    ensures n < 2 || n > 3 ==> !r
  {
    if alive then n == 2 || n == 3 else n == 3
  }

  /** The state of cell (x, y) in the next generation of `g`. */
  function NextCell(g: Grid, x: int, y: int): (alive: bool)
    requires InBounds(g, x, y)
  {
    Rule(g[y][x], Neighbours(g, x, y))
  }

  /** The next generation: the same row lengths, each cell by `Rule` on the old board. */
  function Step(g: Grid): (r: Grid)
    ensures |r| == |g| && forall y :: 0 <= y < |g| ==> |r[y]| == |g[y]|
  {
    seq(|g|, y requires 0 <= y < |g| =>
      seq(|g[y]|, x requires 0 <= x < |g[y]| => NextCell(g, x, y)))
  }

  /**
   * The rule in its usual form: a cell is live in the next generation iff
   * exactly three cells of its bounded Moore neighbourhood are live, or it
   * is live now and exactly two are.
   */
  lemma StepRule(g: Grid, x: int, y: int)
    requires InBounds(g, x, y)
    ensures Step(g)[y][x] <==>
              |MooreLive(g, x, y)| == 3 || (g[y][x] && |MooreLive(g, x, y)| == 2)
  {
    NeighboursIsMooreCount(g, x, y);
  }

  /** Underpopulation: a cell with fewer than two live neighbours is dead next. */
  lemma StepUnderpopulation(g: Grid, x: int, y: int)
    requires InBounds(g, x, y) && |MooreLive(g, x, y)| < 2
    ensures !Step(g)[y][x]
  {
    StepRule(g, x, y);
  }

  /** Overpopulation: a cell with more than three live neighbours is dead next. */
  lemma StepOverpopulation(g: Grid, x: int, y: int)
    requires InBounds(g, x, y) && |MooreLive(g, x, y)| > 3
    ensures !Step(g)[y][x]
  {
    StepRule(g, x, y);
  }

  /** Nothing comes alive on a dead board. */
  lemma DeadStaysDead(g: Grid)
    requires AllDead(g)
    ensures AllDead(Step(g))
  {
    forall y, x | 0 <= y < |g| && 0 <= x < |g[y]|
      ensures !Step(g)[y][x]
    {
      assert MooreLive(g, x, y) == {};
      StepRule(g, x, y);
    }
  }

  lemma EmptyIsStill(rows: nat, cols: nat)
    ensures Step(EmptyGrid(rows, cols)) == EmptyGrid(rows, cols)
  {
    var e := EmptyGrid(rows, cols);
    DeadStaysDead(e);
    GridExt(Step(e), e);
  }

  /**
   * A single live cell, wherever it stands and whatever the board's size,
   * dies, and no cell is born: each cell sees at most one live neighbour.
   */
  lemma LoneCellDies(g: Grid, x0: int, y0: int)
    requires InBounds(g, x0, y0)
    requires forall x, y :: Alive(g, x, y) <==> x == x0 && y == y0
    ensures AllDead(Step(g))
  {
    forall y, x | 0 <= y < |g| && 0 <= x < |g[y]|
      ensures !Step(g)[y][x]
    {
      var live := MooreLive(g, x, y);
      assert live <= {(x0, y0)};
      assert {(x0, y0)} == live + ({(x0, y0)} - live);
      StepUnderpopulation(g, x, y);
    }
  }
}
