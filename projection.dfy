/**
 * The list of live cells handed to the renderer, as `makeCells` builds it:
 * rows from top to bottom, and within a row columns from left to right.
 */
module Projection {
  import opened Grids

  /** A cell coordinate as the renderer receives it: column x, row y. */
  datatype Pos = Pos(x: int, y: int)

  /** `p` comes before `q` when scanning row by row. */
  predicate RowMajorBefore(p: Pos, q: Pos)
  {
    p.y < q.y || (p.y == q.y && p.x < q.x)
  }

  /** The live cells among the first `k` cells of `row`, which is row `y`. */
  function RowCells(row: seq<bool>, y: int, k: nat): (cells: seq<Pos>)
    requires k <= |row|
  {
    if k == 0 then []
    else RowCells(row, y, k - 1) + (if row[k - 1] then [Pos(k - 1, y)] else [])
  }

  /** The live cells of the first `n` rows of `g`. */
  function CellsOfRows(g: Grid, n: nat): (cells: seq<Pos>)
    requires n <= |g|
  {
    if n == 0 then []
    else CellsOfRows(g, n - 1) + RowCells(g[n - 1], n - 1, |g[n - 1]|)
  }

  function LiveCells(g: Grid): (cells: seq<Pos>)
  {
    CellsOfRows(g, |g|)
  }

  lemma {:induction false} RowCellsMembers(row: seq<bool>, y: int, k: nat, p: Pos)
    requires k <= |row|
    ensures p in RowCells(row, y, k) <==> p.y == y && 0 <= p.x < k && row[p.x]
  {
    if k > 0 {
      RowCellsMembers(row, y, k - 1, p);
    }
  }

  lemma {:induction false} RowCellsOrdered(row: seq<bool>, y: int, k: nat)
    requires k <= |row|
    ensures forall i :: 0 <= i < |RowCells(row, y, k)| ==>
              RowCells(row, y, k)[i].y == y && 0 <= RowCells(row, y, k)[i].x < k
    ensures forall i, j :: 0 <= i < j < |RowCells(row, y, k)| ==>
              RowCells(row, y, k)[i].x < RowCells(row, y, k)[j].x
  {
    if k > 0 {
      RowCellsOrdered(row, y, k - 1);
    }
  }

  lemma {:induction false} CellsOfRowsMembers(g: Grid, n: nat, p: Pos)
    requires n <= |g|
    ensures p in CellsOfRows(g, n) <==> 0 <= p.y < n && 0 <= p.x < |g[p.y]| && g[p.y][p.x]
  {
    if n > 0 {
      CellsOfRowsMembers(g, n - 1, p);
      RowCellsMembers(g[n - 1], n - 1, |g[n - 1]|, p);
    }
  }

  lemma {:induction false} CellsOfRowsOrdered(g: Grid, n: nat)
    requires n <= |g|
    ensures forall i :: 0 <= i < |CellsOfRows(g, n)| ==> 0 <= CellsOfRows(g, n)[i].y < n
    ensures forall i, j :: 0 <= i < j < |CellsOfRows(g, n)| ==>
              RowMajorBefore(CellsOfRows(g, n)[i], CellsOfRows(g, n)[j])
  {
    if n > 0 {
      CellsOfRowsOrdered(g, n - 1);
      RowCellsOrdered(g[n - 1], n - 1, |g[n - 1]|);
      var front, back := CellsOfRows(g, n - 1), RowCells(g[n - 1], n - 1, |g[n - 1]|);
      assert CellsOfRows(g, n) == front + back;
      forall i, j | 0 <= i < j < |front + back|
        ensures RowMajorBefore((front + back)[i], (front + back)[j])
      {
        if j < |front| {
        } else if i < |front| {
          assert (front + back)[j] == back[j - |front|];
        } else {
          assert (front + back)[i] == back[i - |front|];
          assert (front + back)[j] == back[j - |front|];
        }
      }
    }
  }

  /** A position is listed iff it is a live cell of the board. */
  lemma LiveCellsMembers(g: Grid, p: Pos)
    ensures p in LiveCells(g) <==> Alive(g, p.x, p.y)
  {
    CellsOfRowsMembers(g, |g|, p);
  }

  /**
   * The list is strictly increasing in row-major order, so no cell is
   * listed twice.
   */
  lemma LiveCellsRowMajor(g: Grid)
    ensures forall i, j :: 0 <= i < j < |LiveCells(g)| ==> RowMajorBefore(LiveCells(g)[i], LiveCells(g)[j])
    ensures forall i, j :: 0 <= i < j < |LiveCells(g)| ==> LiveCells(g)[i] != LiveCells(g)[j]
  {
    CellsOfRowsOrdered(g, |g|);
  }

  /** A dead board lists no cell. */
  lemma LiveCellsOfDead(g: Grid)
    requires AllDead(g)
    ensures LiveCells(g) == []
  {
    if LiveCells(g) != [] {
      var p := LiveCells(g)[0];
      LiveCellsMembers(g, p);
    }
  }
}
