/**
 * Counting live neighbours on a bounded board: the eight Moore offsets are
 * tried in turn and an offset that lands off the board is skipped, never
 * wrapped to the opposite edge.
 */
module Neighbourhood {
  import opened Grids

  /** The offsets `(dy, dx)` in the order `calculateNeighbors` tries them. */
  const Dirs: seq<(int, int)> := [(-1, -1), (-1, 0), (-1, 1), (0, 1), (1, 1), (1, 0), (1, -1), (0, -1)]

  function Bit(b: bool): (n: nat)
  {
    if b then 1 else 0
  }

  /** The live cells reached from (x, y) by the offsets `ds`, counted one by one. */
  function CountLive(g: Grid, x: int, y: int, ds: seq<(int, int)>): (n: nat)
    ensures n <= |ds|
    decreases |ds|
  {
    if ds == [] then 0
    else
      var d := ds[|ds| - 1];
      CountLive(g, x, y, ds[..|ds| - 1]) + Bit(Alive(g, x + d.1, y + d.0))
  }

  /** The number `calculateNeighbors` returns for the cell (x, y). */
  function Neighbours(g: Grid, x: int, y: int): (n: nat)
    ensures n <= 8
  {
    CountLive(g, x, y, Dirs)
  }

  /** The eight neighbour tests written out, one per offset of `Dirs`. */
  lemma NeighboursUnrolled(g: Grid, x: int, y: int)
    ensures Neighbours(g, x, y) ==
      Bit(Alive(g, x - 1, y - 1)) + Bit(Alive(g, x, y - 1)) + Bit(Alive(g, x + 1, y - 1))
      + Bit(Alive(g, x + 1, y)) + Bit(Alive(g, x + 1, y + 1)) + Bit(Alive(g, x, y + 1))
      + Bit(Alive(g, x - 1, y + 1)) + Bit(Alive(g, x - 1, y))
  {
    assert Dirs[..1][..0] == [];
    assert CountLive(g, x, y, Dirs[..1]) == Bit(Alive(g, x - 1, y - 1));
    assert Dirs[..2][..1] == Dirs[..1];
    assert CountLive(g, x, y, Dirs[..2]) == CountLive(g, x, y, Dirs[..1]) + Bit(Alive(g, x, y - 1));
    assert Dirs[..3][..2] == Dirs[..2];
    assert CountLive(g, x, y, Dirs[..3]) == CountLive(g, x, y, Dirs[..2]) + Bit(Alive(g, x + 1, y - 1));
    assert Dirs[..4][..3] == Dirs[..3];
    assert CountLive(g, x, y, Dirs[..4]) == CountLive(g, x, y, Dirs[..3]) + Bit(Alive(g, x + 1, y));
    assert Dirs[..5][..4] == Dirs[..4];
    assert CountLive(g, x, y, Dirs[..5]) == CountLive(g, x, y, Dirs[..4]) + Bit(Alive(g, x + 1, y + 1));
    assert Dirs[..6][..5] == Dirs[..5];
    assert CountLive(g, x, y, Dirs[..6]) == CountLive(g, x, y, Dirs[..5]) + Bit(Alive(g, x, y + 1));
    assert Dirs[..7][..6] == Dirs[..6];
    assert CountLive(g, x, y, Dirs[..7]) == CountLive(g, x, y, Dirs[..6]) + Bit(Alive(g, x - 1, y + 1));
    assert Dirs[..8][..7] == Dirs[..7];
    assert CountLive(g, x, y, Dirs[..8]) == CountLive(g, x, y, Dirs[..7]) + Bit(Alive(g, x - 1, y));
    assert Dirs[..8] == Dirs;
  }

  /** No offset occurs twice. */
  predicate Distinct(ds: seq<(int, int)>)
  {
    forall i, j :: 0 <= i < j < |ds| ==> ds[i] != ds[j]
  }

  /** The live cells, as (x, y) pairs, that the offsets `ds` reach from (x, y). */
  ghost function LiveTargets(g: Grid, x: int, y: int, ds: seq<(int, int)>): set<(int, int)>
  {
    set d | d in ds && Alive(g, x + d.1, y + d.0) :: (x + d.1, y + d.0)
  }

  /**
   * The live cells of the Moore neighbourhood of (x, y): the on-board live
   * cells at most one step away in each direction, other than (x, y) itself.
   */
  ghost function MooreLive(g: Grid, x: int, y: int): set<(int, int)>
  {
    set x', y' | x - 1 <= x' <= x + 1 && y - 1 <= y' <= y + 1 && (x' != x || y' != y) && Alive(g, x', y') :: (x', y')
  }

  /** Appending an offset adds its target, if live, to the reached live cells. */
  lemma TargetsSnoc(g: Grid, x: int, y: int, init: seq<(int, int)>, d: (int, int))
    ensures LiveTargets(g, x, y, init + [d]) ==
              LiveTargets(g, x, y, init) + if Alive(g, x + d.1, y + d.0) then {(x + d.1, y + d.0)} else {}
  {
  }

  /** Distinct offsets reach distinct cells. */
  lemma TargetFresh(g: Grid, x: int, y: int, init: seq<(int, int)>, d: (int, int))
    requires d !in init
    ensures (x + d.1, y + d.0) !in LiveTargets(g, x, y, init)
  {
  }

  lemma {:induction false} CountIsCard(g: Grid, x: int, y: int, ds: seq<(int, int)>)
    requires Distinct(ds)
    ensures CountLive(g, x, y, ds) == |LiveTargets(g, x, y, ds)|
    decreases |ds|
  {
    if ds != [] {
      var init, d := ds[..|ds| - 1], ds[|ds| - 1];
      assert ds == init + [d];
      assert d !in init;
      CountIsCard(g, x, y, init);
      TargetsSnoc(g, x, y, init, d);
      TargetFresh(g, x, y, init, d);
    }
  }

  lemma DirsAreMoore(g: Grid, x: int, y: int)
    ensures LiveTargets(g, x, y, Dirs) == MooreLive(g, x, y)
  {
  }

  /**
   * `calculateNeighbors` counts exactly the live cells of the bounded Moore
   * neighbourhood: each of them once, the cell itself never, and nothing
   * off the board.
   */
  lemma NeighboursIsMooreCount(g: Grid, x: int, y: int)
    ensures Neighbours(g, x, y) == |MooreLive(g, x, y)|
  {
    CountIsCard(g, x, y, Dirs);
    DirsAreMoore(g, x, y);
  }

  /** A corner cell sees at most three neighbours: nothing wraps around. */
  lemma CornerSeesAtMostThree(g: Grid)
    ensures Neighbours(g, 0, 0) <= 3
  {
    NeighboursIsMooreCount(g, 0, 0);
    var near := {(1, 0), (0, 1), (1, 1)};
    var live := MooreLive(g, 0, 0);
    assert live <= near;
    assert near == live + (near - live);
  }

  /** The count at (x, y) depends only on the eight cells around it. */
  lemma NeighboursLocal(g: Grid, h: Grid, x: int, y: int)
    requires forall x', y' :: x - 1 <= x' <= x + 1 && y - 1 <= y' <= y + 1 && (x' != x || y' != y) ==>
               Alive(g, x', y') == Alive(h, x', y')
    ensures Neighbours(g, x, y) == Neighbours(h, x, y)
  {
    NeighboursIsMooreCount(g, x, y);
    NeighboursIsMooreCount(h, x, y);
    assert MooreLive(g, x, y) == MooreLive(h, x, y);
  }

  /** A cell never counts itself: flipping it leaves its own count unchanged. */
  lemma NeighboursIgnoreSelf(g: Grid, x: int, y: int)
    ensures Neighbours(Toggle(g, x, y), x, y) == Neighbours(g, x, y)
  {
    NeighboursLocal(Toggle(g, x, y), g, x, y);
  }
}
