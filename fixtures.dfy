/**
 * The classic small patterns, stated on concrete boards: a blinker has
 * period two and a block is a still life.
 */
module Fixtures {
  import opened Grids
  import opened Neighbourhood
  import opened Generation

  /** A 5 by 5 board with live cells (2, 1), (2, 2) and (2, 3). */
  const VerticalBlinker: Grid := [
    [false, false, false, false, false],
    [false, false, true,  false, false],
    [false, false, true,  false, false],
    [false, false, true,  false, false],
    [false, false, false, false, false]]

  /** A 5 by 5 board with live cells (1, 2), (2, 2) and (3, 2). */
  const HorizontalBlinker: Grid := [
    [false, false, false, false, false],
    [false, false, false, false, false],
    [false, true,  true,  true,  false],
    [false, false, false, false, false],
    [false, false, false, false, false]]

  /** A 4 by 4 board with live cells (1, 1), (2, 1), (1, 2) and (2, 2). */
  const Block: Grid := [
    [false, false, false, false],
    [false, true,  true,  false],
    [false, true,  true,  false],
    [false, false, false, false]]

  /** Two boards of the same shape: `h` is the next generation once it is so cell by cell. */
  lemma StepByCells(g: Grid, h: Grid, rows: nat, cols: nat)
    requires Shaped(g, rows, cols) && Shaped(h, rows, cols)
    requires forall y, x :: 0 <= y < rows && 0 <= x < cols ==> NextCell(g, x, y) == h[y][x]
    ensures Step(g) == h
  {
    GridExt(Step(g), h);
  }

  lemma VerticalBecomesHorizontal()
    ensures Step(VerticalBlinker) == HorizontalBlinker
  {
    forall y | 0 <= y < 5
      ensures forall x :: 0 <= x < 5 ==> NextCell(VerticalBlinker, x, y) == HorizontalBlinker[y][x]
    {
      forall x | 0 <= x < 5
        ensures NextCell(VerticalBlinker, x, y) == HorizontalBlinker[y][x]
      {
        NeighboursUnrolled(VerticalBlinker, x, y);
      }
    }
    StepByCells(VerticalBlinker, HorizontalBlinker, 5, 5);
  }

  lemma HorizontalBecomesVertical()
    ensures Step(HorizontalBlinker) == VerticalBlinker
  {
    forall y | 0 <= y < 5
      ensures forall x :: 0 <= x < 5 ==> NextCell(HorizontalBlinker, x, y) == VerticalBlinker[y][x]
    {
      forall x | 0 <= x < 5
        ensures NextCell(HorizontalBlinker, x, y) == VerticalBlinker[y][x]
      {
        NeighboursUnrolled(HorizontalBlinker, x, y);
      }
    }
    StepByCells(HorizontalBlinker, VerticalBlinker, 5, 5);
  }

  /** A blinker flips between vertical and horizontal: it has period two. */
  lemma BlinkerPeriodTwo()
    ensures Step(VerticalBlinker) == HorizontalBlinker
    ensures Step(Step(VerticalBlinker)) == VerticalBlinker
  {
    VerticalBecomesHorizontal();
    HorizontalBecomesVertical();
  }

  /** A 2 by 2 block is a still life: each of its cells has three live neighbours, no other cell has three. */
  lemma BlockIsStill()
    ensures Step(Block) == Block
  {
    forall y | 0 <= y < 4
      ensures forall x :: 0 <= x < 4 ==> NextCell(Block, x, y) == Block[y][x]
    {
      forall x | 0 <= x < 4
        ensures NextCell(Block, x, y) == Block[y][x]
      {
        NeighboursUnrolled(Block, x, y);
      }
    }
    StepByCells(Block, Block, 4, 4);
  }

  /**
   * A 2 by 2 block with its corner at (1, 1) is still on every board of at
   * least 4 by 4: each cell sees the same neighbourhood as on `Block`.
   */
  lemma BlockStillAnySize(g: Grid, rows: nat, cols: nat)
    requires Shaped(g, rows, cols) && rows >= 4 && cols >= 4
    requires forall x, y :: Alive(g, x, y) <==> 1 <= x <= 2 && 1 <= y <= 2
    ensures Step(g) == g
  {
    BlockIsStill();
    forall y, x | 0 <= y < rows && 0 <= x < cols
      ensures NextCell(g, x, y) == g[y][x]
    {
      NeighboursUnrolled(g, x, y);
      if x < 4 && y < 4 {
        NeighboursLocal(g, Block, x, y);
        assert Step(Block)[y][x] == Block[y][x];
        assert g[y][x] == Alive(g, x, y) == Block[y][x];
      } else {
        assert !g[y][x] by { assert !Alive(g, x, y); }
      }
    }
    StepByCells(g, g, rows, cols);
  }
}
