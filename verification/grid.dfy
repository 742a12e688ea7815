/** The maze lattice: cells, the two wall matrices and the wall-constrained
    adjacency query `get_neighbors` (main.py, class Maze). */
module Grid {

  datatype Option<+T> = None | Some(value: T)

  /** A cell `(i, j)`: row `i`, column `j`. */
  datatype Cell = Cell(row: int, col: int)

  /** An `n` by `m` maze. `vertical[i][j]` is a wall between `(i, j)` and
      `(i, j+1)`; `horizontal[i][j]` is a wall between `(i, j)` and `(i+1, j)`.
      The outer boundary is not stored. */
  datatype Maze = Maze(n: int, m: int, vertical: seq<seq<bool>>, horizontal: seq<seq<bool>>)

  /** The shapes the constructor gives the wall matrices: `n x (m-1)` and `(n-1) x m`. */
  predicate Valid(mz: Maze)
  {
    && mz.n >= 1 && mz.m >= 1
    && |mz.vertical| == mz.n
    && (forall i :: 0 <= i < mz.n ==> |mz.vertical[i]| == mz.m - 1)
    && |mz.horizontal| == mz.n - 1
    && (forall i :: 0 <= i < mz.n - 1 ==> |mz.horizontal[i]| == mz.m)
  }

  predicate InBounds(mz: Maze, c: Cell)
  {
    0 <= c.row < mz.n && 0 <= c.col < mz.m
  }

  /** Every cell of the grid. */
  function AllCells(mz: Maze): (cells: set<Cell>)
    ensures forall c :: c in cells <==> InBounds(mz, c)
  {
    var cells := set i, j | 0 <= i < mz.n && 0 <= j < mz.m :: Cell(i, j);
    assert forall c | InBounds(mz, c) :: c == Cell(c.row, c.col) && c in cells;
    cells
  }

  /** One step apart in exactly one coordinate. */
  predicate Adjacent(a: Cell, b: Cell)
  {
    || (a.row == b.row && (b.col == a.col + 1 || a.col == b.col + 1))
    || (a.col == b.col && (b.row == a.row + 1 || a.row == b.row + 1))
  }

  /** Reference definition of an edge, read off the wall slot that separates
      two cells: both cells lie in the grid, they are orthogonal neighbours,
      and the slot between them holds no wall. */
  predicate Open(mz: Maze, a: Cell, b: Cell)
    requires Valid(mz)
  {
    && InBounds(mz, a) && InBounds(mz, b)
    && (|| (b == Cell(a.row, a.col + 1) && !mz.vertical[a.row][a.col])
        || (a == Cell(b.row, b.col + 1) && !mz.vertical[b.row][b.col])
        || (b == Cell(a.row + 1, a.col) && !mz.horizontal[a.row][a.col])
        || (a == Cell(b.row + 1, b.col) && !mz.horizontal[b.row][b.col]))
  }

  /** The four directions, in the order `get_neighbors` tries them. */
  datatype Dir = Up | Left | Down | Right

  /** The cell one step from `c` in direction `dir`. */
  function Toward(c: Cell, dir: Dir): Cell
  {
    match dir
    case Up => Cell(c.row - 1, c.col)
    case Left => Cell(c.row, c.col - 1)
    case Down => Cell(c.row + 1, c.col)
    case Right => Cell(c.row, c.col + 1)
  }

  /** The guard of one `if` in `get_neighbors`: the index test that stands for
      the outer boundary, then the wall slot on that side. */
  predicate Passable(mz: Maze, c: Cell, dir: Dir)
    requires Valid(mz) && InBounds(mz, c)
  {
    match dir
    case Up => c.row > 0 && !mz.horizontal[c.row - 1][c.col]
    case Left => c.col > 0 && !mz.vertical[c.row][c.col - 1]
    case Down => c.row < mz.n - 1 && !mz.horizontal[c.row][c.col]
    case Right => c.col < mz.m - 1 && !mz.vertical[c.row][c.col]
  }

  /** A passable direction leads along an open edge, and every open edge is
      reached by exactly the direction that points along it. */
  lemma PassableIsOpen(mz: Maze, c: Cell, d: Cell)
    requires Valid(mz) && InBounds(mz, c)
    ensures Open(mz, c, d) <==> exists dir :: Passable(mz, c, dir) && Toward(c, dir) == d
  {
    if Open(mz, c, d) {
      var dir := if d == Toward(c, Up) then Up
                 else if d == Toward(c, Left) then Left
                 else if d == Toward(c, Down) then Down
                 else Right;
      assert Passable(mz, c, dir) && Toward(c, dir) == d;
    }
  }

  /** The appends of `get_neighbors` for the directions in `dirs`, in order. */
  function Collect(mz: Maze, c: Cell, dirs: seq<Dir>): seq<Cell>
    requires Valid(mz) && InBounds(mz, c)
  {
    if dirs == [] then []
    else (if Passable(mz, c, dirs[0]) then [Toward(c, dirs[0])] else []) + Collect(mz, c, dirs[1..])
  }

  /** Every cell `Collect` returns comes from a passable direction of the
      list, and every passable direction contributes its cell. */
  lemma {:induction false} CollectMembers(mz: Maze, c: Cell, dirs: seq<Dir>, d: Cell)
    requires Valid(mz) && InBounds(mz, c)
    ensures d in Collect(mz, c, dirs) <==> exists dir :: dir in dirs && Passable(mz, c, dir) && Toward(c, dir) == d
  {
    if dirs != [] {
      CollectMembers(mz, c, dirs[1..], d);
      var here := if Passable(mz, c, dirs[0]) then [Toward(c, dirs[0])] else [];
      assert Collect(mz, c, dirs) == here + Collect(mz, c, dirs[1..]);
      if exists dir :: dir in dirs && Passable(mz, c, dir) && Toward(c, dir) == d {
        var dir :| dir in dirs && Passable(mz, c, dir) && Toward(c, dir) == d;
        if dir != dirs[0] {
          assert dir in dirs[1..];
        }
      }
    }
  }

  /** The cells `Collect` returns are in the grid and one step from `c`. */
  lemma {:induction false} CollectInBounds(mz: Maze, c: Cell, dirs: seq<Dir>)
    requires Valid(mz) && InBounds(mz, c)
    ensures forall k :: 0 <= k < |Collect(mz, c, dirs)| ==>
              InBounds(mz, Collect(mz, c, dirs)[k]) && Adjacent(c, Collect(mz, c, dirs)[k])
    ensures |Collect(mz, c, dirs)| <= |dirs|
  {
    if dirs != [] {
      CollectInBounds(mz, c, dirs[1..]);
    }
  }

  /** Distinct directions give distinct cells. */
  lemma {:induction false} CollectDistinct(mz: Maze, c: Cell, dirs: seq<Dir>)
    requires Valid(mz) && InBounds(mz, c)
    requires forall k, l :: 0 <= k < l < |dirs| ==> dirs[k] != dirs[l]
    ensures forall k, l :: 0 <= k < l < |Collect(mz, c, dirs)| ==> Collect(mz, c, dirs)[k] != Collect(mz, c, dirs)[l]
  {
    if dirs != [] {
      var here := if Passable(mz, c, dirs[0]) then [Toward(c, dirs[0])] else [];
      var rest := Collect(mz, c, dirs[1..]);
      CollectDistinct(mz, c, dirs[1..]);
      forall d | d in rest ensures d != Toward(c, dirs[0]) {
        CollectMembers(mz, c, dirs[1..], d);
        var dir :| dir in dirs[1..] && Passable(mz, c, dir) && Toward(c, dir) == d;
        assert dir != dirs[0];
      }
      assert Collect(mz, c, dirs) == here + rest;
      ConsDistinct(here, rest);
    }
  }

  /** Putting at most one new cell in front of a list without repeats keeps
      it without repeats. */
  lemma ConsDistinct(here: seq<Cell>, rest: seq<Cell>)
    requires |here| <= 1 && (|here| == 1 ==> here[0] !in rest)
    requires forall k, l :: 0 <= k < l < |rest| ==> rest[k] != rest[l]
    ensures forall k, l :: 0 <= k < l < |here + rest| ==> (here + rest)[k] != (here + rest)[l]
  {
    var r := here + rest;
    assert forall k :: |here| <= k < |r| ==> r[k] == rest[k - |here|] && r[k] in rest;
  }

  /** `get_neighbors`: up, left, down, right, each unless a wall or the
      boundary is in the way. The result is exactly the set of open edges,
      without repetition. */
  function GetNeighbors(mz: Maze, c: Cell): (r: seq<Cell>)
    requires Valid(mz) && InBounds(mz, c)
    ensures forall d :: d in r <==> Open(mz, c, d)
    ensures forall k :: 0 <= k < |r| ==> InBounds(mz, r[k]) && Adjacent(c, r[k])
    ensures forall k, l :: 0 <= k < l < |r| ==> r[k] != r[l]
    ensures |r| <= 4
  {
    var order := [Up, Left, Down, Right];
    var r := Collect(mz, c, order);
    CollectInBounds(mz, c, order);
    CollectDistinct(mz, c, order);
    assert forall d :: d in r <==> Open(mz, c, d) by {
      forall d ensures d in r <==> Open(mz, c, d) {
        CollectMembers(mz, c, order, d);
        PassableIsOpen(mz, c, d);
        if Open(mz, c, d) {
          var dir :| Passable(mz, c, dir) && Toward(c, dir) == d;
          assert dir in order;
        }
      }
    }
    r
  }

  /** `get_neighbors` together with its range assertion: `None` stands for the
      assertion failure on a cell outside the grid. */
  function TryNeighbors(mz: Maze, c: Cell): (r: Option<seq<Cell>>)
    requires Valid(mz)
    ensures r.None? <==> !InBounds(mz, c)
    ensures r.Some? ==> forall d :: d in r.value <==> Open(mz, c, d)
  {
    if InBounds(mz, c) then Some(GetNeighbors(mz, c)) else None
  }

  /** Walls are undirected: both directions read the same wall slot. */
  lemma NeighborsSymmetric(mz: Maze, a: Cell, b: Cell)
    requires Valid(mz) && InBounds(mz, a) && InBounds(mz, b)
    ensures b in GetNeighbors(mz, a) <==> a in GetNeighbors(mz, b)
  {
  }

  /** A walk: in-grid cells, each consecutive pair joined by an open edge.
      It has `|w| - 1` steps. */
  ghost predicate IsWalk(mz: Maze, w: seq<Cell>)
    requires Valid(mz)
  {
    && |w| >= 1
    && (forall k :: 0 <= k < |w| ==> InBounds(mz, w[k]))
    && (forall k :: 0 <= k < |w| - 1 ==> Open(mz, w[k], w[k + 1]))
  }

  /** A walk changes the row by at most one per step. */
  lemma {:induction false} WalkRowBound(mz: Maze, w: seq<Cell>)
    requires Valid(mz) && IsWalk(mz, w)
    ensures w[|w| - 1].row - w[0].row <= |w| - 1
    ensures w[0].row - w[|w| - 1].row <= |w| - 1
  {
    if |w| > 1 {
      var u := w[..|w| - 1];
      assert IsWalk(mz, u) by {
        assert forall k :: 0 <= k < |u| ==> u[k] == w[k];
      }
      WalkRowBound(mz, u);
      assert Open(mz, w[|w| - 2], w[|w| - 1]);
    }
  }

  /** With every horizontal wall closed, a walk never leaves its row. */
  lemma {:induction false} WalkStaysInRow(mz: Maze, w: seq<Cell>)
    requires Valid(mz) && IsWalk(mz, w)
    requires forall i, j :: 0 <= i < mz.n - 1 && 0 <= j < mz.m ==> mz.horizontal[i][j]
    ensures w[|w| - 1].row == w[0].row
  {
    if |w| > 1 {
      var u := w[..|w| - 1];
      assert IsWalk(mz, u) by {
        assert forall k :: 0 <= k < |u| ==> u[k] == w[k];
      }
      WalkStaysInRow(mz, u);
      assert Open(mz, w[|w| - 2], w[|w| - 1]);
    }
  }

  /** A walk from `a` to `b`. */
  ghost predicate Connects(mz: Maze, w: seq<Cell>, a: Cell, b: Cell)
    requires Valid(mz)
  {
    IsWalk(mz, w) && w[0] == a && w[|w| - 1] == b
  }

  function Reverse(w: seq<Cell>): (r: seq<Cell>)
    ensures |r| == |w|
    ensures forall k :: 0 <= k < |w| ==> r[k] == w[|w| - 1 - k]
  {
    if w == [] then [] else Reverse(w[1..]) + [w[0]]
  }

  /** Edges are undirected, so a walk read backwards is a walk. */
  lemma ReverseConnects(mz: Maze, w: seq<Cell>, a: Cell, b: Cell)
    requires Valid(mz) && Connects(mz, w, a, b)
    ensures Connects(mz, Reverse(w), b, a)
  {
  }

  /** With no walls at all, every column is a walk from top to bottom. */
  lemma ColumnIsWalk(mz: Maze, col: int)
    requires Valid(mz) && 0 <= col < mz.m
    requires forall i :: 0 <= i < mz.n - 1 ==> !mz.horizontal[i][col]
    ensures IsWalk(mz, seq(mz.n, i => Cell(i, col)))
  {
  }
}
