/** The board's `Rows` as a value: a sequence of rows of squares, indexed `[y][x]` (board.go). */
module Grids {
  import opened Geometry
  import opened Squares

  type Grid = seq<seq<Square>>

  /** `rows` rows of `cols` squares each. */
  predicate Shaped(g: Grid, cols: int, rows: int) {
    |g| == rows && forall i :: 0 <= i < |g| ==> |g[i]| == cols
  }

  function Cell(g: Grid, c: Coordinate): Square
    requires 0 <= c.y < |g| && 0 <= c.x < |g[c.y]|
  {
    g[c.y][c.x]
  }

  /** Setting the status of the square at `c` in place: only that square's status changes. */
  function WithStatus(g: Grid, c: Coordinate, st: Status): (r: Grid)
    requires 0 <= c.y < |g| && 0 <= c.x < |g[c.y]|
    ensures |r| == |g| && forall i {:trigger r[i]} :: 0 <= i < |g| ==> |r[i]| == |g[i]|
    ensures forall d: Coordinate {:trigger Cell(r, d)} :: 0 <= d.y < |g| && 0 <= d.x < |g[d.y]| ==>
      Cell(r, d) == if d == c then Cell(g, c).(status := st) else Cell(g, d)
  {
    g[c.y := g[c.y][c.x := g[c.y][c.x].(status := st)]]
  }

  /** How many neighbours of `c` are in `mines`. */
  ghost function MinedNeighbours(cols: int, rows: int, mines: set<Coordinate>, c: Coordinate): nat {
    |Neighbours(cols, rows, c) * mines|
  }

  /** The board as Init lays it out: a square holds a mine exactly when its coordinate is in
      `mines`, and its count is the number of its neighbours in `mines`. */
  ghost predicate LaidOut(g: Grid, mines: set<Coordinate>, cols: int, rows: int) {
    && Shaped(g, cols, rows)
    && mines <= AllCoords(cols, rows)
    && forall c {:trigger Cell(g, c)} :: Contains(cols, rows, c) ==>
         && (Cell(g, c).hasMine <==> c in mines)
         && Cell(g, c).num == MinedNeighbours(cols, rows, mines, c)
  }

  /** The coordinates whose square is currently StatusCleaned. */
  ghost function CleanedCells(g: Grid, cols: int, rows: int): set<Coordinate>
    requires Shaped(g, cols, rows)
  {
    set c | c in AllCoords(cols, rows) && Cell(g, c).status == Cleaned
  }

  /** Setting one square's status adds it to, or removes it from, the cleaned squares and
      touches no other square. */
  lemma CleanedAfterSet(g: Grid, cols: int, rows: int, c: Coordinate, st: Status)
    requires Shaped(g, cols, rows) && Contains(cols, rows, c)
    ensures Shaped(WithStatus(g, c, st), cols, rows)
    ensures CleanedCells(WithStatus(g, c, st), cols, rows) ==
      if st == Cleaned then CleanedCells(g, cols, rows) + {c} else CleanedCells(g, cols, rows) - {c}
  {
    var r := WithStatus(g, c, st);
    ContainsIsMembership(cols, rows, c);
    forall d | d in AllCoords(cols, rows)
      ensures (d in CleanedCells(r, cols, rows)) ==
              (d in (if st == Cleaned then CleanedCells(g, cols, rows) + {c} else CleanedCells(g, cols, rows) - {c}))
    {
      ContainsIsMembership(cols, rows, d);
    }
  }

  /** Changing statuses keeps the layout of mines and counts. */
  lemma LaidOutAfterSet(g: Grid, mines: set<Coordinate>, cols: int, rows: int, c: Coordinate, st: Status)
    requires LaidOut(g, mines, cols, rows) && Contains(cols, rows, c)
    ensures LaidOut(WithStatus(g, c, st), mines, cols, rows)
  {
  }

  /** Writing a square's status twice leaves only the second write. */
  lemma StatusOverwrite(g: Grid, c: Coordinate, st: Status, st': Status)
    requires 0 <= c.y < |g| && 0 <= c.x < |g[c.y]|
    ensures WithStatus(WithStatus(g, c, st), c, st') == WithStatus(g, c, st')
  {
    assert WithStatus(g, c, st)[c.y][c.x := g[c.y][c.x].(status := st')] == g[c.y][c.x := g[c.y][c.x].(status := st')];
  }

  /** Setting a status other than StatusCleaned can only remove a square from the cleaned ones. */
  lemma CleanedShrinks(g: Grid, cols: int, rows: int, c: Coordinate, st: Status)
    requires Shaped(g, cols, rows) && Contains(cols, rows, c) && st != Cleaned
    ensures Shaped(WithStatus(g, c, st), cols, rows)
    ensures CleanedCells(WithStatus(g, c, st), cols, rows) <= CleanedCells(g, cols, rows)
    ensures |CleanedCells(WithStatus(g, c, st), cols, rows)| <= |CleanedCells(g, cols, rows)|
  {
    CleanedAfterSet(g, cols, rows, c, st);
    var a, b := CleanedCells(WithStatus(g, c, st), cols, rows), CleanedCells(g, cols, rows);
    if c in b {
      assert b == a + {c};
    } else {
      assert a == b;
    }
  }

  /** `g` is `g0` with exactly the squares at the coordinates in `s` set to StatusCleaned. */
  ghost predicate CleanedOver(g0: Grid, g: Grid, cols: int, rows: int, s: set<Coordinate>) {
    && Shaped(g0, cols, rows) && Shaped(g, cols, rows)
    && forall d {:trigger Cell(g, d)} :: Contains(cols, rows, d) ==>
         Cell(g, d) == if d in s then Cell(g0, d).(status := Cleaned) else Cell(g0, d)
  }

  lemma CleanedOverNothing(g: Grid, cols: int, rows: int)
    requires Shaped(g, cols, rows)
    ensures CleanedOver(g, g, cols, rows, {})
  {
  }

  lemma CleanedOverOne(g: Grid, cols: int, rows: int, c: Coordinate)
    requires Shaped(g, cols, rows) && Contains(cols, rows, c)
    ensures CleanedOver(g, WithStatus(g, c, Cleaned), cols, rows, {c})
  {
    ContainsIsMembership(cols, rows, c);
  }

  /** Cleaning `s` and then `t` cleans `s + t`. */
  lemma CleanedOverTrans(g0: Grid, g1: Grid, g2: Grid, cols: int, rows: int, s: set<Coordinate>, t: set<Coordinate>)
    requires CleanedOver(g0, g1, cols, rows, s) && CleanedOver(g1, g2, cols, rows, t)
    ensures CleanedOver(g0, g2, cols, rows, s + t)
  {
    forall d | Contains(cols, rows, d)
      ensures Cell(g2, d) == if d in s + t then Cell(g0, d).(status := Cleaned) else Cell(g0, d)
    {
      ContainsIsMembership(cols, rows, d);
    }
  }

  /** Cleaning squares keeps the layout of mines and counts. */
  lemma CleanedOverLaidOut(g0: Grid, g: Grid, mines: set<Coordinate>, cols: int, rows: int, s: set<Coordinate>)
    requires LaidOut(g0, mines, cols, rows) && CleanedOver(g0, g, cols, rows, s)
    ensures LaidOut(g, mines, cols, rows)
  {
    forall c | Contains(cols, rows, c)
      ensures (Cell(g, c).hasMine <==> c in mines) && Cell(g, c).num == MinedNeighbours(cols, rows, mines, c)
    {
      assert Cell(g, c).hasMine == Cell(g0, c).hasMine && Cell(g, c).num == Cell(g0, c).num;
    }
  }

  /** 1 for a cleaned square, 0 otherwise. */
  function CleanedFlag(sq: Square): nat {
    if sq.status == Cleaned then 1 else 0
  }

  /** The number of cleaned squares in a row, counted from the left. */
  ghost function RowCleaned(r: seq<Square>): nat {
    if r == [] then 0 else RowCleaned(r[..|r| - 1]) + CleanedFlag(r[|r| - 1])
  }

  /** The number of cleaned squares on the board, counted row by row. */
  ghost function GridCleaned(g: Grid): nat {
    if g == [] then 0 else GridCleaned(g[..|g| - 1]) + RowCleaned(g[|g| - 1])
  }

  lemma {:induction false} RowCleanedUpdate(r: seq<Square>, x: int, sq: Square)
    requires 0 <= x < |r|
    ensures RowCleaned(r[x := sq]) == RowCleaned(r) - CleanedFlag(r[x]) + CleanedFlag(sq)
  {
    var n := |r| - 1;
    if x == n {
      assert r[x := sq][..n] == r[..n];
    } else {
      assert r[x := sq][..n] == r[..n][x := sq];
      RowCleanedUpdate(r[..n], x, sq);
    }
  }

  lemma {:induction false} GridCleanedUpdate(g: Grid, y: int, row: seq<Square>)
    requires 0 <= y < |g|
    ensures GridCleaned(g[y := row]) == GridCleaned(g) - RowCleaned(g[y]) + RowCleaned(row)
  {
    var n := |g| - 1;
    if y == n {
      assert g[y := row][..n] == g[..n];
    } else {
      assert g[y := row][..n] == g[..n][y := row];
      GridCleanedUpdate(g[..n], y, row);
    }
  }

  /** Setting one square's status changes the count of cleaned squares by that square alone. */
  lemma GridCleanedAfterSet(g: Grid, c: Coordinate, st: Status)
    requires 0 <= c.y < |g| && 0 <= c.x < |g[c.y]|
    ensures GridCleaned(WithStatus(g, c, st)) ==
      GridCleaned(g) - CleanedFlag(Cell(g, c)) + CleanedFlag(Cell(g, c).(status := st))
  {
    RowCleanedUpdate(g[c.y], c.x, g[c.y][c.x].(status := st));
    GridCleanedUpdate(g, c.y, g[c.y][c.x := g[c.y][c.x].(status := st)]);
  }

  /** The cleaned squares of row `r` placed at height `y`. */
  ghost function RowCleanedCells(r: seq<Square>, y: int): set<Coordinate> {
    set x | 0 <= x < |r| && r[x].status == Cleaned :: Coordinate(x, y)
  }

  lemma {:induction false} RowCleanedCellsSize(r: seq<Square>, y: int)
    ensures |RowCleanedCells(r, y)| == RowCleaned(r)
  {
    if r != [] {
      var n := |r| - 1;
      RowCleanedCellsSize(r[..n], y);
      var last := if r[n].status == Cleaned then {Coordinate(n, y)} else {};
      assert RowCleanedCells(r, y) == RowCleanedCells(r[..n], y) + last;
      assert Coordinate(n, y) !in RowCleanedCells(r[..n], y);
    }
  }

  /** The count kept row by row is the number of cleaned squares. */
  lemma {:induction false} GridCleanedIsSize(g: Grid, cols: int, rows: int)
    requires Shaped(g, cols, rows)
    ensures GridCleaned(g) == |CleanedCells(g, cols, rows)|
  {
    if g != [] {
      var n := |g| - 1;
      var top := g[..n];
      GridCleanedIsSize(top, cols, n);
      RowCleanedCellsSize(g[n], n);
      var a, b := CleanedCells(top, cols, n), RowCleanedCells(g[n], n);
      forall c ensures c in CleanedCells(g, cols, rows) <==> c in a + b {
        ContainsIsMembership(cols, rows, c);
        ContainsIsMembership(cols, n, c);
        if c in b {
          var x :| 0 <= x < |g[n]| && g[n][x].status == Cleaned && c == Coordinate(x, n);
        }
        if 0 <= c.y == n && 0 <= c.x < cols && g[n][c.x].status == Cleaned {
          assert c == Coordinate(c.x, n);
        }
      }
      assert CleanedCells(g, cols, rows) == a + b;
      assert a * b == {};
    } else {
      assert CleanedCells(g, cols, rows) == {};
    }
  }
}
