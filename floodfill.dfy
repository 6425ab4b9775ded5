/** What the recursive reveal of board.go visits and reveals, stated over values: the mine set
    alone decides where the reveal may expand, so these definitions do not depend on statuses. */
module FloodFill {
  import opened Geometry

  /** The reveal expands from `c` only when no neighbour of `c` holds a mine. */
  predicate Expandable(cols: int, rows: int, mines: set<Coordinate>, c: Coordinate) {
    Neighbours(cols, rows, c) * mines == {}
  }

  /** A set of visited coordinates that holds every neighbour of each of its expandable members. */
  ghost predicate Closed(cols: int, rows: int, mines: set<Coordinate>, s: set<Coordinate>) {
    forall v {:trigger Expandable(cols, rows, mines, v)} :: v in s && Expandable(cols, rows, mines, v) ==> Neighbours(cols, rows, v) <= s
  }

  /** The squares the reveal sets to StatusCleaned after visiting `visited`: every neighbour of
      every expandable visited coordinate. */
  ghost function Region(cols: int, rows: int, mines: set<Coordinate>, visited: set<Coordinate>): set<Coordinate> {
    set v, d | v in visited && Expandable(cols, rows, mines, v) && d in Neighbours(cols, rows, v) :: d
  }

  /** The reveal never uncovers a mine, and stays on the board. */
  lemma RegionSafe(cols: int, rows: int, mines: set<Coordinate>, visited: set<Coordinate>)
    ensures Region(cols, rows, mines, visited) * mines == {}
    ensures Region(cols, rows, mines, visited) <= AllCoords(cols, rows)
  {
    var r := Region(cols, rows, mines, visited);
    forall d | d in r ensures d !in mines && d in AllCoords(cols, rows) {
      var v :| v in visited && Expandable(cols, rows, mines, v) && d in Neighbours(cols, rows, v);
      assert d in Neighbours(cols, rows, v) * mines ==> false;
    }
  }

  /** The boundary rule: a revealed square always lies next to an expandable visited coordinate,
      so the reveal stops at the first ring of numbered squares. */
  lemma RegionBorder(cols: int, rows: int, mines: set<Coordinate>, visited: set<Coordinate>, d: Coordinate)
    requires d in Region(cols, rows, mines, visited)
    ensures exists v :: v in visited && Expandable(cols, rows, mines, v) && Adjacent(v, d) && d !in mines
  {
    RegionSafe(cols, rows, mines, visited);
    var v :| v in visited && Expandable(cols, rows, mines, v) && d in Neighbours(cols, rows, v);
    assert d in Region(cols, rows, mines, visited) * mines ==> false;
    assert v in visited && Expandable(cols, rows, mines, v) && Adjacent(v, d) && d !in mines;
  }

  lemma RegionUnion(cols: int, rows: int, mines: set<Coordinate>, a: set<Coordinate>, b: set<Coordinate>)
    ensures Region(cols, rows, mines, a + b) == Region(cols, rows, mines, a) + Region(cols, rows, mines, b)
  {
    forall d | d in Region(cols, rows, mines, a + b)
      ensures d in Region(cols, rows, mines, a) + Region(cols, rows, mines, b)
    {
      var v :| v in a + b && Expandable(cols, rows, mines, v) && d in Neighbours(cols, rows, v);
    }
  }

  lemma RegionOfOne(cols: int, rows: int, mines: set<Coordinate>, c: Coordinate)
    ensures Region(cols, rows, mines, {c}) == if Expandable(cols, rows, mines, c) then Neighbours(cols, rows, c) else {}
  {
  }

  /** Every square revealed from a closed visited set was itself visited. */
  lemma RegionInsideClosed(cols: int, rows: int, mines: set<Coordinate>, visited: set<Coordinate>)
    requires Closed(cols, rows, mines, visited)
    ensures Region(cols, rows, mines, visited) <= visited
  {
    forall d | d in Region(cols, rows, mines, visited) ensures d in visited {
      var v :| v in visited && Expandable(cols, rows, mines, v) && d in Neighbours(cols, rows, v);
    }
  }

  /** If `c` is expandable and `d` is one of its neighbours, every closed set holding `c` also
      holds `d`, so what lies in every closed set holding `d` lies in every one holding `c`. */
  lemma LeastStep(cols: int, rows: int, mines: set<Coordinate>, c: Coordinate, d: Coordinate,
                  a: set<Coordinate>, b: set<Coordinate>)
    requires Expandable(cols, rows, mines, c) && d in Neighbours(cols, rows, c)
    requires forall s {:trigger Closed(cols, rows, mines, s)} :: c in s && Closed(cols, rows, mines, s) ==> a <= s
    requires forall s {:trigger Closed(cols, rows, mines, s)} :: d in s && Closed(cols, rows, mines, s) ==> b <= s
    ensures forall s {:trigger Closed(cols, rows, mines, s)} :: c in s && Closed(cols, rows, mines, s) ==> a + b <= s
  {
  }
}
