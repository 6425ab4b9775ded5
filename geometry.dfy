/** Grid coordinates, the bounds test and the up-to-eight surrounding cells (board.go). */
module Geometry {

  /** X is the column, Y the row. */
  datatype Coordinate = Coordinate(x: int, y: int)

  /** Board.Contains: the coordinate lies on a board of `cols` columns and `rows` rows. */
  predicate Contains(cols: int, rows: int, c: Coordinate) {
    !(c.x < 0 || c.x >= cols || c.y < 0 || c.y >= rows)
  }

  /** Every coordinate of a board of `cols` columns and `rows` rows. */
  function AllCoords(cols: int, rows: int): set<Coordinate> {
    set x, y | 0 <= x < cols && 0 <= y < rows :: Coordinate(x, y)
  }

  /** `d` is one of the eight cells around `c`. */
  predicate Adjacent(c: Coordinate, d: Coordinate) {
    d != c && -1 <= d.x - c.x <= 1 && -1 <= d.y - c.y <= 1
  }

  /** The in-bounds cells around `c`, as a set. */
  function Neighbours(cols: int, rows: int, c: Coordinate): set<Coordinate> {
    set d | d in AllCoords(cols, rows) && Adjacent(c, d)
  }

  /** Position of the offset from `c` to `d` in the scan of GetSurroundingCoordinates:
      the column offset is the outer loop and the row offset the inner one. */
  function ScanIndex(c: Coordinate, d: Coordinate): int {
    3 * (d.x - c.x + 1) + (d.y - c.y + 1)
  }

  lemma ContainsIsMembership(cols: int, rows: int, c: Coordinate)
    ensures Contains(cols, rows, c) <==> c in AllCoords(cols, rows)
  {
    if Contains(cols, rows, c) {
      assert c == Coordinate(c.x, c.y);
    }
  }

  function RowCoords(cols: int, y: int): set<Coordinate> {
    set x | 0 <= x < cols :: Coordinate(x, y)
  }

  lemma {:induction false} RowCoordsSize(cols: nat, y: int)
    ensures |RowCoords(cols, y)| == cols
  {
    if cols > 0 {
      RowCoordsSize(cols - 1, y);
      assert RowCoords(cols, y) == RowCoords(cols - 1, y) + {Coordinate(cols - 1, y)};
    }
  }

  /** The coordinates of a board are those of its first rows - 1 rows and those of its last row. */
  lemma AllCoordsSplit(cols: int, rows: int)
    requires rows > 0
    ensures AllCoords(cols, rows) == AllCoords(cols, rows - 1) + RowCoords(cols, rows - 1)
    ensures AllCoords(cols, rows - 1) !! RowCoords(cols, rows - 1)
  {
    forall d | d in AllCoords(cols, rows) ensures d in AllCoords(cols, rows - 1) + RowCoords(cols, rows - 1) {
      if d.y < rows - 1 { assert d in AllCoords(cols, rows - 1); } else { assert d in RowCoords(cols, rows - 1); }
    }
  }

  /** A board of `cols` by `rows` has exactly cols*rows coordinates. */
  lemma {:induction false} AllCoordsSize(cols: nat, rows: nat)
    ensures |AllCoords(cols, rows)| == cols * rows
  {
    if rows > 0 {
      var above, last := AllCoords(cols, rows - 1), RowCoords(cols, rows - 1);
      AllCoordsSize(cols, rows - 1);
      RowCoordsSize(cols, rows - 1);
      AllCoordsSplit(cols, rows);
      assert |above + last| == |above| + |last|;
      assert cols * rows == cols * (rows - 1) + cols;
    }
  }

  /** `coords` lists, in scan order, exactly the neighbours of `c` whose scan index is below `n`. */
  predicate ScannedUpTo(c: Coordinate, cols: int, rows: int, coords: seq<Coordinate>, n: int) {
    && (forall k :: 0 <= k < |coords| ==> coords[k] in Neighbours(cols, rows, c) && ScanIndex(c, coords[k]) < n)
    && (forall d :: d in Neighbours(cols, rows, c) && ScanIndex(c, d) < n ==> d in coords)
    && (forall a, b :: 0 <= a < b < |coords| ==> ScanIndex(c, coords[a]) < ScanIndex(c, coords[b]))
    && |coords| <= n - (if n > 4 then 1 else 0)
  }

  /** Coordinate.GetSurroundingCoordinates: scans the offsets -1..1 for the column (outer loop)
      and -1..1 for the row (inner loop), skips (0, 0) and every out-of-bounds cell, and appends
      the rest.  The result holds every in-bounds neighbour exactly once, in scan order. */
  method GetSurroundingCoordinates(c: Coordinate, cols: int, rows: int) returns (coords: seq<Coordinate>)
    ensures forall k :: 0 <= k < |coords| ==> coords[k] in Neighbours(cols, rows, c)
    ensures forall d :: d in Neighbours(cols, rows, c) ==> d in coords
    ensures forall a, b :: 0 <= a < b < |coords| ==> ScanIndex(c, coords[a]) < ScanIndex(c, coords[b])
    ensures forall a, b :: 0 <= a < b < |coords| ==> coords[a] != coords[b]
    ensures |coords| <= 8
  {
    coords := [];
    for i := -1 to 2
      invariant ScannedUpTo(c, cols, rows, coords, 3 * (i + 1))
    {
      coords := ScanColumn(c, cols, rows, i, coords);
    }
    forall a, b | 0 <= a < b < |coords| ensures coords[a] != coords[b] {
      assert ScanIndex(c, coords[a]) < ScanIndex(c, coords[b]);
    }
  }

  /** The inner loop of GetSurroundingCoordinates for the column offset `i`. */
  method ScanColumn(c: Coordinate, cols: int, rows: int, i: int, coords: seq<Coordinate>) returns (coords': seq<Coordinate>)
    requires -1 <= i <= 1
    requires ScannedUpTo(c, cols, rows, coords, 3 * (i + 1))
    ensures ScannedUpTo(c, cols, rows, coords', 3 * (i + 2))
  {
    coords' := coords;
    for j := -1 to 2
      invariant ScannedUpTo(c, cols, rows, coords', 3 * (i + 1) + (j + 1))
    {
      ScanNext(c, cols, rows, coords', i, j);
      if i == 0 && j == 0 {
        continue;
      }
      var x := c.x + i;
      var y := c.y + j;
      if x < 0 || x >= cols {
        continue;
      }
      if y < 0 || y >= rows {
        continue;
      }
      coords' := coords' + [Coordinate(x, y)];
    }
  }

  /** The offset (i, j) has scan index 3 * (i + 1) + (j + 1); the only neighbour with that index
      is the cell at that offset, when it is a neighbour at all. */
  lemma ScanNext(c: Coordinate, cols: int, rows: int, coords: seq<Coordinate>, i: int, j: int)
    requires -1 <= i <= 1 && -1 <= j <= 1
    requires ScannedUpTo(c, cols, rows, coords, 3 * (i + 1) + (j + 1))
    ensures var e := Coordinate(c.x + i, c.y + j);
      if (i == 0 && j == 0) || !Contains(cols, rows, e)
      then ScannedUpTo(c, cols, rows, coords, 3 * (i + 1) + (j + 1) + 1)
      else ScannedUpTo(c, cols, rows, coords + [e], 3 * (i + 1) + (j + 1) + 1)
  {
    var e := Coordinate(c.x + i, c.y + j);
    var n := 3 * (i + 1) + (j + 1);
    forall d | d in Neighbours(cols, rows, c) && ScanIndex(c, d) == n ensures d == e {
    }
    ContainsIsMembership(cols, rows, e);
    if !((i == 0 && j == 0) || !Contains(cols, rows, e)) {
      assert e in Neighbours(cols, rows, c);
      var t := coords + [e];
      forall k | 0 <= k < |t| ensures t[k] in Neighbours(cols, rows, c) && ScanIndex(c, t[k]) < n + 1 {
        if k < |coords| {
          assert t[k] == coords[k];
        }
      }
    }
  }
}
