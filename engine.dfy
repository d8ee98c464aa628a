/**
 * The engine state of the `Game` component: the mutable board, its fixed
 * dimensions, the run flag and the pending timeout handle. Each method is
 * the loop the component runs, proved against the functions of `Grids`,
 * `Neighbourhood`, `Generation` and `Projection`.
 */
module Engine {
  import opened Wrappers
  import opened Grids
  import opened Neighbourhood
  import opened Generation
  import opened Projection

  /** A handle returned by the browser timer; browsers never hand out 0. */
  type Handle = h: int | h > 0 witness 1

  /** The contents of a two-dimensional array as a board value. */
  ghost function GridOf(b: array2<bool>): (g: Grid)
    reads b
    ensures Shaped(g, b.Length0, b.Length1)
    ensures forall y, x :: 0 <= y < b.Length0 && 0 <= x < b.Length1 ==> g[y][x] == b[y, x]
  {
    seq(b.Length0, y requires 0 <= y < b.Length0 reads b =>
      seq(b.Length1, x requires 0 <= x < b.Length1 reads b => b[y, x]))
  }

  class Game {
    const rows: nat
    const cols: nat
    var board: array2<bool>
    var isRunning: bool
    var timeoutHandler: Option<Handle>

    ghost predicate Valid()
      reads this
    {
      board.Length0 == rows && board.Length1 == cols
    }

    /** The board as a value. */
    ghost function Cells(): Grid
      reads this, board
    {
      GridOf(board)
    }

    constructor ()
      ensures Valid() && fresh(board)
      ensures rows == Height / CellSize == 20 && cols == Width / CellSize == 30
      ensures Cells() == EmptyGrid(rows, cols)
      ensures !isRunning && timeoutHandler == None
    {
      var r, c := Height / CellSize, Width / CellSize;
      var b := MakeEmptyBoard(r, c);
      rows, cols, board := r, c, b;
      isRunning, timeoutHandler := false, None;
    }

    /** A fresh `rows` by `cols` array of dead cells, filled row by row. */
    static method MakeEmptyBoard(rows: nat, cols: nat) returns (b: array2<bool>)
      ensures fresh(b) && b.Length0 == rows && b.Length1 == cols
      ensures GridOf(b) == EmptyGrid(rows, cols)
    {
      b := new bool[rows, cols];
      for y := 0 to rows
        invariant forall j, i :: 0 <= j < y && 0 <= i < cols ==> !b[j, i]
      {
        for x := 0 to cols
          invariant forall j, i :: 0 <= j < y && 0 <= i < cols ==> !b[j, i]
          invariant forall i :: 0 <= i < x ==> !b[y, i]
        {
          b[y, x] := false;
        }
      }
      GridExt(GridOf(b), EmptyGrid(rows, cols));
    }

    /** The live cells of the board, row by row and left to right. */
    method MakeCells() returns (cells: seq<Pos>)
      requires Valid()
      ensures cells == LiveCells(Cells())
    {
      ghost var g := Cells();
      cells := [];
      for y := 0 to rows
        invariant cells == CellsOfRows(g, y)
      {
        for x := 0 to cols
          invariant cells == CellsOfRows(g, y) + RowCells(g[y], y, x)
        {
          if board[y, x] {
            cells := cells + [Pos(x, y)];
          }
        }
      }
    }

    /** The live cells among the eight Moore neighbours of (x, y) on `b`. */
    method CalculateNeighbors(b: array2<bool>, x: int, y: int) returns (neighbors: nat)
      requires b.Length0 == rows && b.Length1 == cols
      ensures neighbors == Neighbours(GridOf(b), x, y)
    {
      ghost var g := GridOf(b);
      neighbors := 0;
      var dirs := Dirs;
      for i := 0 to |dirs|
        invariant neighbors == CountLive(g, x, y, dirs[..i])
      {
        var dir := dirs[i];
        var y1 := y + dir.0;
        var x1 := x + dir.1;
        assert dirs[..i + 1][..i] == dirs[..i];
        if x1 >= 0 && x1 < cols && y1 >= 0 && y1 < rows && b[y1, x1] {
          neighbors := neighbors + 1;
        }
      }
      assert dirs[..|dirs|] == dirs;
    }

    /**
     * The grid update of `runIteration`: a new board is filled from the
     * old one, which is only read, and then replaces it.
     */
    method NextGeneration()
      requires Valid()
      modifies this`board
      ensures Valid() && fresh(board)
      ensures Cells() == Step(old(Cells()))
    {
      ghost var g := Cells();
      var newBoard := MakeEmptyBoard(rows, cols);
      for y := 0 to rows
        modifies newBoard
        invariant forall j, i :: 0 <= j < rows && 0 <= i < cols ==>
                    newBoard[j, i] == (j < y && NextCell(g, i, j))
      {
        for x := 0 to cols
          modifies newBoard
          invariant forall j, i :: 0 <= j < rows && 0 <= i < cols ==>
                      newBoard[j, i] == ((j < y || (j == y && i < x)) && NextCell(g, i, j))
        {
          var neighbors := CalculateNeighbors(board, x, y);
          assert GridOf(board) == g;
          if board[y, x] {
            if neighbors == 2 || neighbors == 3 {
              newBoard[y, x] := true;
            } else {
              newBoard[y, x] := false;
            }
          } else {
            if !board[y, x] && neighbors == 3 {
              newBoard[y, x] := true;
            }
          }
        }
      }
      board := newBoard;
      GridExt(GridOf(newBoard), Step(g));
    }

    /** One scheduled iteration: a generation, then the next timeout `next`. */
    method RunIteration(next: Handle)
      requires Valid()
      modifies this`board, this`timeoutHandler
      ensures Valid() && fresh(board)
      ensures Cells() == Step(old(Cells()))
      ensures timeoutHandler == Some(next) && isRunning == old(isRunning)
    {
      NextGeneration();
      timeoutHandler := Some(next);
    }

    /** `runGame`: raise the run flag and run the first iteration at once. */
    method RunGame(next: Handle)
      requires Valid()
      modifies this`board, this`isRunning, this`timeoutHandler
      ensures Valid() && fresh(board)
      ensures Cells() == Step(old(Cells()))
      ensures isRunning && timeoutHandler == Some(next)
    {
      isRunning := true;
      RunIteration(next);
    }

    /**
     * `stopGame`: lower the run flag and cancel the pending timeout, if any;
     * afterwards no timeout is pending, so no further generation runs.
     */
    method StopGame()
      requires Valid()
      modifies this`isRunning, this`timeoutHandler
      ensures Valid() && Cells() == old(Cells())
      ensures !isRunning && timeoutHandler == None
    {
      isRunning := false;
      if timeoutHandler.Some? {
        timeoutHandler := None;
      }
    }

    /** The cell toggle of `handleClick`, for cell coordinates, with strict bounds. */
    method ToggleCell(x: int, y: int)
      requires Valid()
      modifies board
      ensures Valid()
      ensures Cells() == Toggle(old(Cells()), x, y)
    {
      ghost var g := Cells();
      if x >= 0 && x < cols && y >= 0 && y < rows {
        board[y, x] := !board[y, x];
      }
      GridExt(Cells(), Toggle(g, x, y));
    }

    /** `handleClear`: the board is replaced by an empty one of the same size. */
    method HandleClear()
      requires Valid()
      modifies this`board
      ensures Valid() && fresh(board)
      ensures Cells() == EmptyGrid(rows, cols)
    {
      board := MakeEmptyBoard(rows, cols);
    }

    /**
     * `handleRandom`: every cell is overwritten in place from its draw of
     * the random source, live iff the draw is at least 0.5.
     */
    method HandleRandom(draws: seq<seq<real>>)
      requires Valid()
      requires |draws| == rows && forall y :: 0 <= y < rows ==> |draws[y]| == cols
      modifies board
      ensures Valid()
      ensures Cells() == Threshold(draws)
    {
      for y := 0 to rows
        invariant forall j, i :: 0 <= j < y && 0 <= i < cols ==> board[j, i] == (draws[j][i] >= 0.5)
      {
        for x := 0 to cols
          invariant forall j, i :: 0 <= j < y && 0 <= i < cols ==> board[j, i] == (draws[j][i] >= 0.5)
          invariant forall i :: 0 <= i < x ==> board[y, i] == (draws[y][i] >= 0.5)
        {
          board[y, x] := draws[y][x] >= 0.5;
        }
      }
      GridExt(Cells(), Threshold(draws));
    }
  }
}
