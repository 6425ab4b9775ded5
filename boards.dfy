/** The game board of board.go, and the turn step of main.go's game loop lifted onto it. */
module Boards {
  import opened Geometry
  import opened Squares
  import opened Grids
  import opened FloodFill
  import opened Settings
  import opened Commands

  /** How a turn ends: rejected (bad format, off the board, already revealed), lost, won, or
      the game goes on. */
  datatype Outcome = Malformed | OutOfBounds | AlreadyRecorded | Lost | Won | Continue

  /** The set of coordinates occurring in a sequence. */
  ghost function Elems(s: seq<Coordinate>): set<Coordinate> {
    set d | d in s
  }

  lemma {:induction false} ElemsSize(s: seq<Coordinate>)
    ensures |Elems(s)| <= |s|
    ensures (forall a, b :: 0 <= a < b < |s| ==> s[a] != s[b]) ==> |Elems(s)| == |s|
  {
    if s != [] {
      var t := s[..|s| - 1];
      ElemsSize(t);
      assert Elems(s) == Elems(t) + {s[|s| - 1]};
      if forall a, b :: 0 <= a < b < |s| ==> s[a] != s[b] {
        assert s[|s| - 1] !in Elems(t);
      }
    }
  }

  lemma ElemsSnoc(s: seq<Coordinate>, k: nat)
    requires k < |s|
    ensures Elems(s[..k + 1]) == Elems(s[..k]) + {s[k]}
  {
    assert s[..k + 1] == s[..k] + [s[k]];
  }

  lemma {:induction false} SubsetSize(a: set<Coordinate>, b: set<Coordinate>)
    requires a <= b
    ensures |a| <= |b|
    ensures |b - a| == |b| - |a|
  {
    if a != {} {
      var x :| x in a;
      SubsetSize(a - {x}, b - {x});
      assert b - a == (b - {x}) - (a - {x});
    }
  }

  /** One more element of a duplicate-free sequence adds one to the count of its members in
      `m` exactly when that element is in `m`. */
  lemma CountStep(s: seq<Coordinate>, k: nat, m: set<Coordinate>)
    requires k < |s|
    requires forall a, b :: 0 <= a < b < |s| ==> s[a] != s[b]
    ensures |Elems(s[..k + 1]) * m| == |Elems(s[..k]) * m| + (if s[k] in m then 1 else 0)
  {
    ElemsSnoc(s, k);
    assert s[k] !in Elems(s[..k]);
    if s[k] in m {
      assert Elems(s[..k + 1]) * m == Elems(s[..k]) * m + {s[k]};
    } else {
      assert Elems(s[..k + 1]) * m == Elems(s[..k]) * m;
    }
  }

  /** Counting the members of `m` over a duplicate-free listing of the set `n` of at most
      eight elements counts `n * m`, which has at most eight elements. */
  lemma CountAll(s: seq<Coordinate>, m: set<Coordinate>, n: set<Coordinate>)
    requires forall a, b :: 0 <= a < b < |s| ==> s[a] != s[b]
    requires |s| <= 8
    requires forall k :: 0 <= k < |s| ==> s[k] in n
    requires forall d :: d in n ==> d in s
    ensures |Elems(s[..|s|]) * m| == |n * m| <= 8
  {
    assert s[..|s|] == s;
    assert Elems(s) == n;
    ElemsSize(s);
    SubsetSize(n * m, n);
  }

  lemma UnionRegroup(a: set<Coordinate>, b: set<Coordinate>, c: set<Coordinate>, e: set<Coordinate>)
    ensures (a + b) + (c + e) == (a + c) + (b + e)
  {
  }

  /** What was added on top of `v` is `c` and what was added on top of `v + {c}`. */
  lemma AddedSplit(v: set<Coordinate>, c: Coordinate, w: set<Coordinate>)
    requires c !in v && v + {c} <= w
    ensures w - v == {c} + (w - (v + {c}))
  {
  }

  lemma AddedChain(a: set<Coordinate>, b: set<Coordinate>, c: set<Coordinate>)
    requires a <= b <= c
    ensures c - a == (b - a) + (c - b)
  {
  }

  /** What the expansion loop from `c` knows after visiting from the neighbours in `drawn`:
      the coordinates it added on top of `start` hold all neighbours of their expandable members
      and lie in every closed set that holds `c`. */
  ghost predicate Explored(cols: int, rows: int, mines: set<Coordinate>, c: Coordinate,
                           start: set<Coordinate>, drawn: set<Coordinate>, visited: set<Coordinate>) {
    && start <= visited <= AllCoords(cols, rows)
    && drawn <= visited
    && (forall v {:trigger Expandable(cols, rows, mines, v)} :: v in visited - start && Expandable(cols, rows, mines, v) ==> Neighbours(cols, rows, v) <= visited)
    && (forall s {:trigger Closed(cols, rows, mines, s)} :: c in s && Closed(cols, rows, mines, s) ==> visited - start <= s)
  }

  lemma ExploredStep(cols: int, rows: int, mines: set<Coordinate>, c: Coordinate, start: set<Coordinate>,
                     drawn: set<Coordinate>, before: set<Coordinate>, d: Coordinate, after: set<Coordinate>)
    requires Explored(cols, rows, mines, c, start, drawn, before)
    requires Expandable(cols, rows, mines, c) && d in Neighbours(cols, rows, c)
    requires Explored(cols, rows, mines, d, before, {d}, after)
    ensures Explored(cols, rows, mines, c, start, drawn + {d}, after)
  {
    AddedChain(start, before, after);
    LeastStep(cols, rows, mines, c, d, before - start, after - before);
  }

  /** `g` is `g0` with exactly the squares in `s` cleaned, and SweptCount and Score have both
      risen from `swept0` and `score0` by the number of squares that became cleaned. */
  ghost predicate Revealed(cols: int, rows: int, g0: Grid, g: Grid, swept0: int, swept: int,
                           score0: int, score: int, s: set<Coordinate>) {
    && CleanedOver(g0, g, cols, rows, s)
    && swept - swept0 == score - score0 == GridCleaned(g) - GridCleaned(g0)
  }

  lemma RevealedTrans(cols: int, rows: int, g0: Grid, g1: Grid, g2: Grid, swept0: int, swept1: int, swept2: int,
                      score0: int, score1: int, score2: int, s: set<Coordinate>, t: set<Coordinate>)
    requires Revealed(cols, rows, g0, g1, swept0, swept1, score0, score1, s)
    requires Revealed(cols, rows, g1, g2, swept1, swept2, score1, score2, t)
    ensures Revealed(cols, rows, g0, g2, swept0, swept2, score0, score2, s + t)
  {
    CleanedOverTrans(g0, g1, g2, cols, rows, s, t);
  }

  /** Cleaning `{d}` and the region revealed from it, after the neighbours in `drawn` and the
      region revealed from them, cleans the neighbours in `drawn + {d}` and the region revealed
      from everything visited since `start`. */
  lemma RevealStep(cols: int, rows: int, mines: set<Coordinate>, g0: Grid, g1: Grid, g2: Grid,
                   swept0: int, swept1: int, swept2: int, score0: int, score1: int, score2: int,
                   drawn: set<Coordinate>, d: Coordinate,
                   start: set<Coordinate>, before: set<Coordinate>, after: set<Coordinate>)
    requires start <= before <= after
    requires Revealed(cols, rows, g0, g1, swept0, swept1, score0, score1, drawn + Region(cols, rows, mines, before - start))
    requires Revealed(cols, rows, g1, g2, swept1, swept2, score1, score2, {d} + Region(cols, rows, mines, after - before))
    ensures Revealed(cols, rows, g0, g2, swept0, swept2, score0, score2, (drawn + {d}) + Region(cols, rows, mines, after - start))
  {
    AddedChain(start, before, after);
    var r0, r1 := Region(cols, rows, mines, before - start), Region(cols, rows, mines, after - before);
    RegionUnion(cols, rows, mines, before - start, after - before);
    RevealedTrans(cols, rows, g0, g1, g2, swept0, swept1, swept2, score0, score1, score2, drawn + r0, {d} + r1);
    UnionRegroup(drawn, {d}, r0, r1);
  }

  lemma ListedSet(s: seq<Coordinate>, n: set<Coordinate>)
    requires forall k :: 0 <= k < |s| ==> s[k] in n
    requires forall e :: e in n ==> e in s
    ensures Elems(s) == n
  {
  }

  /** A closure of the reveal from `c`: the least set holding `c` that is closed. */
  ghost predicate IsClosure(cols: int, rows: int, mines: set<Coordinate>, c: Coordinate, visited: set<Coordinate>) {
    && c in visited
    && visited <= AllCoords(cols, rows)
    && Closed(cols, rows, mines, visited)
    && forall s {:trigger Closed(cols, rows, mines, s)} :: c in s && Closed(cols, rows, mines, s) ==> visited <= s
  }

  /** The square `Init` places at `c` for the mine set `mines`. */
  ghost function InitialSquare(cols: int, rows: int, mines: set<Coordinate>, c: Coordinate): Square {
    Square(|Neighbours(cols, rows, c) * mines|, c in mines, Unswept)
  }

  /** The counters and records a turn keeps: the score is the swept count plus the mine-swept
      count (each revealed square scores 1, each marked mine 2); every cleaned square (counted
      by GridCleaned) was counted in the swept count; no cleaned square holds a mine; and every
      recorded coordinate is on the board and cleaned. */
  ghost predicate Counted(g: Grid, mines: set<Coordinate>, cols: int, rows: int,
                          score: int, swept: int, mineSwept: int, records: set<Coordinate>)
    requires Shaped(g, cols, rows)
  {
    && score == swept + mineSwept
    && 0 <= mineSwept
    && GridCleaned(g) + mineSwept <= swept
    && (forall c {:trigger Cell(g, c)} :: Contains(cols, rows, c) && Cell(g, c).status == Cleaned ==> c !in mines)
    && (forall c {:trigger c in records} :: c in records ==> Contains(cols, rows, c) && Cell(g, c).status == Cleaned)
  }

  /** A freshly laid-out board, all of its squares unswept, is Counted with every counter at 0
      and nothing recorded. */
  lemma FreshCounted(g: Grid, mines: set<Coordinate>, cols: int, rows: int)
    requires Shaped(g, cols, rows)
    requires forall c {:trigger Cell(g, c)} :: Contains(cols, rows, c) ==> Cell(g, c).status == Unswept
    ensures Counted(g, mines, cols, rows, 0, 0, 0, {})
  {
    GridCleanedIsSize(g, cols, rows);
    forall c | c in CleanedCells(g, cols, rows) ensures false {
      ContainsIsMembership(cols, rows, c);
    }
    assert CleanedCells(g, cols, rows) == {};
  }

  /** Revealing the safe, unrecorded square `c`: it is cleaned (g1), recorded and scored, and
      Clean from it cleans the mine-free set `s` (g2), which adds `n` to the count of cleaned
      squares.  The counters stay Counted. */
  lemma RevealCounted(g0: Grid, g1: Grid, g2: Grid, mines: set<Coordinate>, cols: int, rows: int, c: Coordinate,
                      s: set<Coordinate>, score: int, swept: int, mineSwept: int, records: set<Coordinate>, n: int)
    requires Shaped(g0, cols, rows) && Contains(cols, rows, c)
    requires Counted(g0, mines, cols, rows, score, swept, mineSwept, records)
    requires c !in mines
    requires g1 == WithStatus(g0, c, Cleaned)
    requires CleanedOver(g1, g2, cols, rows, s) && s * mines == {}
    requires n == GridCleaned(g2) - GridCleaned(g1)
    ensures Counted(g2, mines, cols, rows, score + 1 + n, swept + 1 + n, mineSwept, records + {c})
  {
    GridCleanedAfterSet(g0, c, Cleaned);
    forall d | Contains(cols, rows, d) && Cell(g2, d).status == Cleaned ensures d !in mines {
      if d in s {
        assert d in s * mines ==> false;
      }
    }
  }

  /** Setting a status other than StatusCleaned on an unrecorded square, with the swept count
      and the mine-swept count each raised by `bonus` and the score by twice that, keeps the
      counters Counted. */
  lemma StatusCounted(g: Grid, mines: set<Coordinate>, cols: int, rows: int, c: Coordinate, st: Status,
                      score: int, swept: int, mineSwept: int, records: set<Coordinate>, bonus: nat)
    requires Shaped(g, cols, rows) && Contains(cols, rows, c) && st != Cleaned && c !in records
    requires Counted(g, mines, cols, rows, score, swept, mineSwept, records)
    ensures Shaped(WithStatus(g, c, st), cols, rows)
    ensures Counted(WithStatus(g, c, st), mines, cols, rows, score + 2 * bonus, swept + bonus, mineSwept + bonus, records)
  {
    GridCleanedAfterSet(g, c, st);
  }

  /** After cleaning `c` (g1) and then a mine-free set (g2), the squares the count of cleaned
      squares rose by from g1 are exactly the squares other than `c` that did not start cleaned. */
  lemma ChangedCount(g0: Grid, g1: Grid, g2: Grid, mines: set<Coordinate>, cols: int, rows: int, c: Coordinate,
                     s: set<Coordinate>)
    requires Shaped(g0, cols, rows) && Contains(cols, rows, c)
    requires g1 == WithStatus(g0, c, Cleaned)
    requires CleanedOver(g1, g2, cols, rows, s) && s * mines == {}
    ensures GridCleaned(g2) - GridCleaned(g1)
              == |(CleanedCells(g2, cols, rows) - CleanedCells(g0, cols, rows)) - {c}|
  {
    CleanedAfterSet(g0, cols, rows, c, Cleaned);
    RevealCount(g1, g2, cols, rows, mines, s);
    var a, b, e := CleanedCells(g0, cols, rows), CleanedCells(g1, cols, rows), CleanedCells(g2, cols, rows);
    assert (e - a) - {c} == e - b;
  }

  /** What an accepted turn (its coordinate on the board and not recorded) does, from the board
      `g0`, the records `rec0` and the counters `score0`, `swept0`, `mineSwept0` to `g`, `rec`,
      `score`, `swept` and `mineSwept`.  `c` on a mine sets it StatusBombed and changes nothing
      else; `c` on a safe square records it and cleans it and the region revealed from it, and
      each counts 1 (the square itself always, the others when they were not already
      cleaned); `m` sets StatusMarked and counts only on a mine, which scores 2; `s` sets
      StatusSuspicious and changes nothing else. */
  ghost predicate TurnEffect(cols: int, rows: int, mines: set<Coordinate>, coord: Coordinate, action: Action,
                             g0: Grid, g: Grid, rec0: set<Coordinate>, rec: set<Coordinate>,
                             score0: int, score: int, swept0: int, swept: int, mineSwept0: int, mineSwept: int)
    requires Shaped(g0, cols, rows) && Shaped(g, cols, rows) && Contains(cols, rows, coord)
  {
    match action
    case Reveal =>
      if coord in mines then
        && g == WithStatus(g0, coord, Bombed) && rec == rec0
        && score == score0 && swept == swept0 && mineSwept == mineSwept0
      else
        && rec == rec0 + {coord}
        && (exists visited {:trigger IsClosure(cols, rows, mines, coord, visited)} ::
              && IsClosure(cols, rows, mines, coord, visited)
              && CleanedOver(g0, g, cols, rows, {coord} + Region(cols, rows, mines, visited)))
        && mineSwept == mineSwept0
        && swept - swept0 == score - score0
             == 1 + |(CleanedCells(g, cols, rows) - CleanedCells(g0, cols, rows)) - {coord}|
    case Mark =>
      && g == WithStatus(g0, coord, Marked) && rec == rec0
      && if coord in mines
         then swept == swept0 + 1 && mineSwept == mineSwept0 + 1 && score == score0 + 2
         else swept == swept0 && mineSwept == mineSwept0 && score == score0
    case Suspect =>
      && g == WithStatus(g0, coord, Suspicious) && rec == rec0
      && score == score0 && swept == swept0 && mineSwept == mineSwept0
  }

  /** Every accepted turn leaves the score at least where it was, and a turn that does not lose
      never lowers the swept count either. */
  lemma TurnScoreRises(cols: int, rows: int, mines: set<Coordinate>, coord: Coordinate, action: Action,
                       g0: Grid, g: Grid, rec0: set<Coordinate>, rec: set<Coordinate>,
                       score0: int, score: int, swept0: int, swept: int, mineSwept0: int, mineSwept: int)
    requires Shaped(g0, cols, rows) && Shaped(g, cols, rows) && Contains(cols, rows, coord)
    requires TurnEffect(cols, rows, mines, coord, action, g0, g, rec0, rec, score0, score, swept0, swept, mineSwept0, mineSwept)
    ensures score >= score0 && swept >= swept0 && mineSwept >= mineSwept0
    ensures rec0 <= rec
  {
  }

  /** Revealing the mine at `c`: the square is set to StatusCleaned and then to StatusBombed,
      which keeps the layout and the counters and is the turn's whole effect. */
  lemma BombedEffect(g0: Grid, mines: set<Coordinate>, cols: int, rows: int, c: Coordinate,
                     score: int, swept: int, mineSwept: int, records: set<Coordinate>)
    requires LaidOut(g0, mines, cols, rows) && Contains(cols, rows, c) && c in mines && c !in records
    requires Counted(g0, mines, cols, rows, score, swept, mineSwept, records)
    ensures LaidOut(WithStatus(WithStatus(g0, c, Cleaned), c, Bombed), mines, cols, rows)
    ensures Counted(WithStatus(WithStatus(g0, c, Cleaned), c, Bombed), mines, cols, rows, score, swept, mineSwept, records)
    ensures TurnEffect(cols, rows, mines, c, Reveal, g0, WithStatus(WithStatus(g0, c, Cleaned), c, Bombed),
                       records, records, score, score, swept, swept, mineSwept, mineSwept)
  {
    StatusOverwrite(g0, c, Cleaned, Bombed);
    LaidOutAfterSet(g0, mines, cols, rows, c, Bombed);
    StatusCounted(g0, mines, cols, rows, c, Bombed, score, swept, mineSwept, records, 0);
  }

  /** Revealing the safe square `c`: it is cleaned (g1), recorded and scored, and Clean from it
      visits the closure `visited`, cleans the region revealed from it (g2) and raises the swept
      count and the score by the rise in the count of cleaned squares.  The layout and the
      counters are kept, and this is the turn's whole effect. */
  lemma SweptEffect(g0: Grid, g1: Grid, g2: Grid, mines: set<Coordinate>, cols: int, rows: int, c: Coordinate,
                    visited: set<Coordinate>, score0: int, score: int, swept0: int, swept: int,
                    mineSwept0: int, mineSwept: int, records0: set<Coordinate>, records: set<Coordinate>)
    requires LaidOut(g0, mines, cols, rows) && Contains(cols, rows, c) && c !in mines && c !in records0
    requires Counted(g0, mines, cols, rows, score0, swept0, mineSwept0, records0)
    requires g1 == WithStatus(g0, c, Cleaned)
    requires IsClosure(cols, rows, mines, c, visited)
    requires CleanedOver(g1, g2, cols, rows, Region(cols, rows, mines, visited))
    requires swept - (swept0 + 1) == score - (score0 + 1) == GridCleaned(g2) - GridCleaned(g1)
    requires mineSwept == mineSwept0 && records == records0 + {c}
    ensures LaidOut(g2, mines, cols, rows)
    ensures Counted(g2, mines, cols, rows, score, swept, mineSwept, records)
    ensures TurnEffect(cols, rows, mines, c, Reveal, g0, g2, records0, records, score0, score, swept0, swept, mineSwept0, mineSwept)
  {
    var r := Region(cols, rows, mines, visited);
    RegionSafe(cols, rows, mines, visited);
    RevealCounted(g0, g1, g2, mines, cols, rows, c, r, score0, swept0, mineSwept0, records0, swept - (swept0 + 1));
    ChangedCount(g0, g1, g2, mines, cols, rows, c, r);
    CleanedOverOne(g0, cols, rows, c);
    CleanedOverTrans(g0, g1, g2, cols, rows, {c}, r);
    LaidOutAfterSet(g0, mines, cols, rows, c, Cleaned);
    CleanedOverLaidOut(g1, g2, mines, cols, rows, r);
  }

  /** Marking (`bonus` 1 on a mine, 0 otherwise) or suspecting the unrecorded square `c` keeps
      the layout and the counters. */
  lemma StatusEffect(g0: Grid, mines: set<Coordinate>, cols: int, rows: int, c: Coordinate, st: Status,
                     score: int, swept: int, mineSwept: int, records: set<Coordinate>, bonus: nat)
    requires LaidOut(g0, mines, cols, rows) && Contains(cols, rows, c) && c !in records && st != Cleaned
    requires Counted(g0, mines, cols, rows, score, swept, mineSwept, records)
    ensures LaidOut(WithStatus(g0, c, st), mines, cols, rows)
    ensures Counted(WithStatus(g0, c, st), mines, cols, rows, score + 2 * bonus, swept + bonus, mineSwept + bonus, records)
  {
    LaidOutAfterSet(g0, mines, cols, rows, c, st);
    StatusCounted(g0, mines, cols, rows, c, st, score, swept, mineSwept, records, bonus);
  }

  /** What Clean from `c` does, read off its contract: it only adds cleaned squares, none of
      them a mine, and the count kept row by row rises by the number of squares it cleaned. */
  lemma CleanRevealsSafely(g0: Grid, g: Grid, cols: int, rows: int, mines: set<Coordinate>,
                           c: Coordinate, visited: set<Coordinate>)
    requires IsClosure(cols, rows, mines, c, visited)
    requires CleanedOver(g0, g, cols, rows, Region(cols, rows, mines, visited))
    ensures CleanedCells(g0, cols, rows) <= CleanedCells(g, cols, rows)
    ensures CleanedCells(g, cols, rows) * mines == CleanedCells(g0, cols, rows) * mines
    ensures GridCleaned(g) - GridCleaned(g0) == |CleanedCells(g, cols, rows) - CleanedCells(g0, cols, rows)|
  {
    RegionSafe(cols, rows, mines, visited);
    RevealCount(g0, g, cols, rows, mines, Region(cols, rows, mines, visited));
  }

  /** Cleaning the squares of a set free of mines only adds cleaned squares, none of them a
      mine, and the count kept row by row rises by the number added. */
  lemma RevealCount(g0: Grid, g: Grid, cols: int, rows: int, mines: set<Coordinate>, s: set<Coordinate>)
    requires CleanedOver(g0, g, cols, rows, s) && s * mines == {}
    ensures CleanedCells(g0, cols, rows) <= CleanedCells(g, cols, rows)
    ensures CleanedCells(g, cols, rows) * mines == CleanedCells(g0, cols, rows) * mines
    ensures GridCleaned(g) - GridCleaned(g0) == |CleanedCells(g, cols, rows) - CleanedCells(g0, cols, rows)|
  {
    var before, after := CleanedCells(g0, cols, rows), CleanedCells(g, cols, rows);
    forall d | d in before ensures d in after {
      ContainsIsMembership(cols, rows, d);
    }
    forall d | d in after * mines ensures d in before {
      ContainsIsMembership(cols, rows, d);
    }
    SubsetSize(before, after);
    GridCleanedIsSize(g0, cols, rows);
    GridCleanedIsSize(g, cols, rows);
  }

  /** Row `y` of a board of `cols` columns as Init lays it out from the mine set `mines`. */
  ghost predicate RowLaidOut(row: seq<Square>, cols: int, rows: int, mines: set<Coordinate>, y: int) {
    && |row| == cols
    && forall x :: 0 <= x < cols ==> row[x] == InitialSquare(cols, rows, mines, Coordinate(x, y)) && row[x].num <= 8
  }

  /** The first `n` rows of a board as Init's fill loop lays them out. */
  ghost predicate RowsLaidOut(grid: Grid, cols: int, rows: int, mines: set<Coordinate>, n: int) {
    |grid| == n && forall y :: 0 <= y < n ==> RowLaidOut(grid[y], cols, rows, mines, y)
  }

  lemma RowsLaidOutSnoc(grid: Grid, row: seq<Square>, cols: int, rows: int, mines: set<Coordinate>, n: int)
    requires RowsLaidOut(grid, cols, rows, mines, n) && RowLaidOut(row, cols, rows, mines, n)
    ensures RowsLaidOut(grid + [row], cols, rows, mines, n + 1)
  {
    forall y | 0 <= y < n + 1 ensures RowLaidOut((grid + [row])[y], cols, rows, mines, y) {
      if y < n { assert (grid + [row])[y] == grid[y]; }
    }
  }

  /** Once every row is laid out, every square of the board is Init's square. */
  lemma RowsLaidOutCells(grid: Grid, cols: int, rows: int, mines: set<Coordinate>)
    requires RowsLaidOut(grid, cols, rows, mines, rows)
    ensures Shaped(grid, cols, rows)
    ensures forall c {:trigger Cell(grid, c)} :: Contains(cols, rows, c) ==>
      Cell(grid, c) == InitialSquare(cols, rows, mines, c) && Cell(grid, c).num <= 8
  {
    forall c | Contains(cols, rows, c)
      ensures Cell(grid, c) == InitialSquare(cols, rows, mines, c) && Cell(grid, c).num <= 8
    {
      assert RowLaidOut(grid[c.y], cols, rows, mines, c.y);
      assert c == Coordinate(c.x, c.y);
    }
  }

  class Board {
    var score: int
    const rowCount: int
    const colCount: int
    const mineCount: int
    var sweptCount: int
    var mineSweptCount: int
    var rows: Grid
    /** The turn loop's coordRecords: the coordinates the player has revealed. */
    var records: set<Coordinate>
    /** The mine coordinates chosen by Init. */
    ghost var mines: set<Coordinate>

    /** The board has its RowCount rows of ColCount squares, and a square holds a mine exactly
        when its coordinate is in the mine set. */
    ghost predicate Valid()
      reads this
    {
      && colCount > 0 && rowCount > 0
      && Shaped(rows, colCount, rowCount)
      && mines <= AllCoords(colCount, rowCount)
      && forall c {:trigger Cell(rows, c)} :: Geometry.Contains(colCount, rowCount, c) ==> (Cell(rows, c).hasMine <==> c in mines)
    }

    /** What every turn keeps: the board is laid out from its mines, and its counters and
        records are Counted. */
    ghost predicate Consistent()
      reads this
    {
      && Valid()
      && LaidOut(rows, mines, colCount, rowCount)
      && Counted(rows, mines, colCount, rowCount, score, sweptCount, mineSweptCount, records)
    }

    /** Consistent, assembled from its value-level parts. */
    lemma ConsistentFrom()
      requires colCount > 0 && rowCount > 0 && LaidOut(rows, mines, colCount, rowCount)
      requires Counted(rows, mines, colCount, rowCount, score, sweptCount, mineSweptCount, records)
      ensures Consistent()
    {
    }

    /** The fields NewBoard sets before calling Init. */
    constructor (cfg: Config)
      ensures colCount == cfg.width && rowCount == cfg.height && mineCount == cfg.mineCount
      ensures score == 0 && sweptCount == 0 && mineSweptCount == 0
      ensures rows == [] && records == {} && mines == {}
    {
      colCount, rowCount, mineCount := cfg.width, cfg.height, cfg.mineCount;
      score, sweptCount, mineSweptCount := 0, 0, 0;
      rows, records, mines := [], {}, {};
    }

    /** Board.Contains. */
    predicate Contains(c: Coordinate)
    {
      Geometry.Contains(colCount, rowCount, c)
    }

    /** Board.IsWin: every square has been swept and every mine marked. */
    predicate IsWin()
      reads this
    {
      sweptCount == rowCount * colCount && mineSweptCount == mineCount
    }

    /** A won consistent board has scored every square once and every mine once more. */
    lemma WinScore()
      requires Consistent()
      ensures IsWin() ==> score == rowCount * colCount + mineCount
    {
    }

    /** The body of Init's fill loop for one square: it holds a mine when its coordinate was
        drawn, and it counts the drawn coordinates among its neighbours, at most eight. */
    method LayOutSquare(coord: Coordinate, mineCoords: set<Coordinate>) returns (sq: Square)
      ensures sq == InitialSquare(colCount, rowCount, mineCoords, coord)
      ensures 0 <= sq.num <= 8
    {
      var hasMine := coord in mineCoords;
      var around := GetSurroundingCoordinates(coord, colCount, rowCount);
      var num := 0;
      for k := 0 to |around|
        invariant num == |Elems(around[..k]) * mineCoords|
      {
        CountStep(around, k, mineCoords);
        if around[k] in mineCoords {
          num := num + 1;
        }
      }
      CountAll(around, mineCoords, Neighbours(colCount, rowCount, coord));
      sq := Square(num, hasMine, Unswept);
    }

    /** Init's placement loop with the random source injected: `draws` are the coordinates the
        generator yields, in order.  Drawing goes on, skipping coordinates already drawn, until
        the number of distinct coordinates reaches MineCount.  It gets there exactly when
        1 <= MineCount and the draws hold that many distinct coordinates; the mine set is then
        the set of the shortest prefix of the draws that does. */
    method PlaceMines(draws: seq<Coordinate>) returns (mineCoords: set<Coordinate>, ok: bool)
      ensures ok <==> 1 <= mineCount <= |Elems(draws)|
      ensures ok ==> |mineCoords| == mineCount
      ensures ok ==> exists n :: 0 < n <= |draws| && mineCoords == Elems(draws[..n]) && |Elems(draws[..n - 1])| < mineCount
    {
      mineCoords := {};
      var count := 0;
      var k := 0;
      ok := false;
      while !ok && k < |draws|
        invariant 0 <= k <= |draws|
        invariant mineCoords == Elems(draws[..k])
        invariant count == |mineCoords|
        invariant ok ==> count == mineCount && k >= 1 && |Elems(draws[..k - 1])| < mineCount
        invariant !ok ==> !(1 <= mineCount <= count)
      {
        var coord := draws[k];
        ElemsSnoc(draws, k);
        k := k + 1;
        if coord in mineCoords {
          continue;
        }
        mineCoords := mineCoords + {coord};
        count := count + 1;
        if count == mineCount {
          ok := true;
        }
      }
      assert draws[..|draws|] == draws;
      SubsetSize(Elems(draws[..k]), Elems(draws));
    }

    /** One pass of Init's inner fill loop: the row of squares with Y coordinate `y`. */
    method LayOutRow(mineCoords: set<Coordinate>, y: int) returns (row: seq<Square>)
      requires colCount >= 0
      ensures RowLaidOut(row, colCount, rowCount, mineCoords, y)
    {
      row := [];
      for j := 0 to colCount
        invariant |row| == j
        invariant forall x :: 0 <= x < j ==>
          row[x] == InitialSquare(colCount, rowCount, mineCoords, Coordinate(x, y)) && row[x].num <= 8
      {
        var sq := LayOutSquare(Coordinate(j, y), mineCoords);
        row := row + [sq];
      }
    }

    /** Init's fill loop: one row of squares per Y, one square per X, each laid out from the
        mine set. */
    method LayOut(mineCoords: set<Coordinate>) returns (grid: Grid)
      requires rowCount >= 0 && colCount >= 0
      ensures Shaped(grid, colCount, rowCount)
      ensures forall c {:trigger Cell(grid, c)} :: Contains(c) ==>
        Cell(grid, c) == InitialSquare(colCount, rowCount, mineCoords, c) && Cell(grid, c).num <= 8
    {
      grid := [];
      for i := 0 to rowCount
        invariant RowsLaidOut(grid, colCount, rowCount, mineCoords, i)
      {
        var row := LayOutRow(mineCoords, i);
        RowsLaidOutSnoc(grid, row, colCount, rowCount, mineCoords, i);
        grid := grid + [row];
      }
      RowsLaidOutCells(grid, colCount, rowCount, mineCoords);
    }

    /** Board.Init with the random source injected (see PlaceMines).  When placement succeeds the
        board holds exactly the placed mines, every square unswept and numbered with its mined
        neighbours.  The source's loop never ends when placement cannot succeed; here the board
        is then left as it was. */
    method Init(draws: seq<Coordinate>) returns (ok: bool)
      requires colCount > 0 && rowCount > 0
      requires forall k :: 0 <= k < |draws| ==> Contains(draws[k])
      modifies this
      ensures ok <==> 1 <= mineCount <= |Elems(draws)|
      ensures ok ==> Valid() && LaidOut(rows, mines, colCount, rowCount) && |mines| == mineCount
      ensures ok ==> exists n :: 0 < n <= |draws| && mines == Elems(draws[..n]) && |Elems(draws[..n - 1])| < mineCount
      ensures ok ==> forall c {:trigger Cell(rows, c)} :: Contains(c) ==> Cell(rows, c).status == Unswept && 0 <= Cell(rows, c).num <= 8
      ensures !ok ==> rows == old(rows) && mines == old(mines)
      ensures score == old(score) && sweptCount == old(sweptCount) && mineSweptCount == old(mineSweptCount)
      ensures records == old(records)
    {
      var mineCoords;
      mineCoords, ok := PlaceMines(draws);
      if !ok {
        return;
      }
      assert mineCoords <= AllCoords(colCount, rowCount) by {
        var n :| 0 < n <= |draws| && mineCoords == Elems(draws[..n]);
        forall d | d in mineCoords ensures d in AllCoords(colCount, rowCount) {
          ContainsIsMembership(colCount, rowCount, d);
        }
      }
      var grid := LayOut(mineCoords);
      rows, mines := grid, mineCoords;
    }

    /** The square update inside clean's expansion loop: a square not yet cleaned becomes
        cleaned and adds 1 to SweptCount and Score; an already cleaned square is left alone. */
    method CleanSquare(d: Coordinate)
      requires Valid() && Contains(d)
      modifies this`rows, this`sweptCount, this`score
      ensures Valid()
      ensures rows == WithStatus(old(rows), d, Cleaned)
      ensures sweptCount - old(sweptCount) == score - old(score) == 1 - CleanedFlag(Cell(old(rows), d))
      ensures sweptCount - old(sweptCount) == GridCleaned(rows) - GridCleaned(old(rows))
    {
      GridCleanedAfterSet(rows, d, Cleaned);
      if Cell(rows, d).status != Cleaned {
        rows := WithStatus(rows, d, Cleaned);
        sweptCount := sweptCount + 1;
        score := score + 1;
      } else {
        assert rows[d.y][d.x].(status := Cleaned) == rows[d.y][d.x];
        assert rows[d.y][d.x := rows[d.y][d.x]] == rows[d.y];
        assert rows[d.y := rows[d.y]] == rows;
      }
    }

    /** Board.clean: the recursive reveal over the shared visited set, threaded through as an
        in-out parameter.  The coordinates this call adds to the visited set hold `c`, lie in
        every closed set that holds `c`, and have the neighbours of each expandable one in the
        new visited set; exactly the neighbours of the expandable added coordinates become
        cleaned, and the counters rise by the number of squares that changed.  A coordinate already visited is not expanded again. */
    method CleanFrom(visited: set<Coordinate>, c: Coordinate) returns (visited': set<Coordinate>)
      requires Valid() && Contains(c) && visited <= AllCoords(colCount, rowCount)
      modifies this`rows, this`sweptCount, this`score
      decreases |AllCoords(colCount, rowCount) - visited|, 2
      ensures Valid()
      ensures visited + {c} <= visited' <= AllCoords(colCount, rowCount)
      ensures forall v {:trigger Expandable(colCount, rowCount, mines, v)} :: v in visited' - visited && Expandable(colCount, rowCount, mines, v) ==>
        Neighbours(colCount, rowCount, v) <= visited'
      ensures forall s {:trigger Closed(colCount, rowCount, mines, s)} :: c in s && Closed(colCount, rowCount, mines, s) ==> visited' - visited <= s
      ensures CleanedOver(old(rows), rows, colCount, rowCount, Region(colCount, rowCount, mines, visited' - visited))
      ensures sweptCount - old(sweptCount) == score - old(score)
                == GridCleaned(rows) - GridCleaned(old(rows))
      ensures c in visited ==>
        visited' == visited && rows == old(rows) && sweptCount == old(sweptCount) && score == old(score)
    {
      ContainsIsMembership(colCount, rowCount, c);
      CleanedOverNothing(rows, colCount, rowCount);
      if c in visited {
        visited' := visited;
        assert visited' - visited == {};
        return;
      }
      visited' := visited + {c};
      var coords := GetSurroundingCoordinates(c, colCount, rowCount);
      var hasBomb := AnyMined(coords);
      RegionOfOne(colCount, rowCount, mines, c);
      if hasBomb {
        assert !Expandable(colCount, rowCount, mines, c) by {
          var m :| 0 <= m < |coords| && coords[m] in mines;
          assert coords[m] in Neighbours(colCount, rowCount, c) * mines;
        }
        assert visited' - visited == {c};
        return;
      }
      assert Expandable(colCount, rowCount, mines, c) by {
        forall e | e in Neighbours(colCount, rowCount, c) ensures e !in mines {
          var m :| 0 <= m < |coords| && coords[m] == e;
        }
      }
      var start := visited';
      ListedSet(coords, Neighbours(colCount, rowCount, c));
      assert (AllCoords(colCount, rowCount) - visited) - (AllCoords(colCount, rowCount) - start) == {c};
      SubsetSize(AllCoords(colCount, rowCount) - start, AllCoords(colCount, rowCount) - visited);
      visited' := ExpandFrom(start, c, coords);
      AddedSplit(visited, c, visited');
      RegionUnion(colCount, rowCount, mines, {c}, visited' - start);
    }

    /** clean's expansion loop from the expandable coordinate `c`, whose neighbours `coords`
        lists: each neighbour is cleaned and revealed from in turn over the shared visited set. */
    method ExpandFrom(start: set<Coordinate>, c: Coordinate, coords: seq<Coordinate>) returns (visited': set<Coordinate>)
      requires Valid() && c in start && start <= AllCoords(colCount, rowCount)
      requires Expandable(colCount, rowCount, mines, c)
      requires Elems(coords) == Neighbours(colCount, rowCount, c)
      modifies this`rows, this`sweptCount, this`score
      decreases |AllCoords(colCount, rowCount) - start| + 1, 1
      ensures Valid()
      ensures Explored(colCount, rowCount, mines, c, start, Neighbours(colCount, rowCount, c), visited')
      ensures Revealed(colCount, rowCount, old(rows), rows, old(sweptCount), sweptCount, old(score), score,
                       Neighbours(colCount, rowCount, c) + Region(colCount, rowCount, mines, visited' - start))
    {
      visited' := start;
      CleanedOverNothing(rows, colCount, rowCount);
      assert visited' - start == {};
      assert Elems(coords[..0]) == {};
      for k := 0 to |coords|
        invariant Valid()
        invariant Explored(colCount, rowCount, mines, c, start, Elems(coords[..k]), visited')
        invariant Revealed(colCount, rowCount, old(rows), rows, old(sweptCount), sweptCount, old(score), score,
                           Elems(coords[..k]) + Region(colCount, rowCount, mines, visited' - start))
      {
        var d := coords[k];
        assert d in Elems(coords);
        ElemsSnoc(coords, k);
        SubsetSize(AllCoords(colCount, rowCount) - visited', AllCoords(colCount, rowCount) - start);
        visited' := VisitNeighbour(c, start, Elems(coords[..k]), old(rows), old(sweptCount), old(score), visited', d);
      }
      assert coords[..|coords|] == coords;
    }

    /** One pass of clean's expansion loop from `c`, for its neighbour `d`: clean the square at
        `d`, then reveal from it over the shared visited set.  What the loop knows about the
        neighbours in `drawn` it then knows about those in `drawn + {d}`. */
    method VisitNeighbour(ghost c: Coordinate, ghost start: set<Coordinate>, ghost drawn: set<Coordinate>,
                          ghost g0: Grid, ghost swept0: int, ghost score0: int,
                          visited: set<Coordinate>, d: Coordinate) returns (visited': set<Coordinate>)
      requires Valid() && Contains(d)
      requires Expandable(colCount, rowCount, mines, c) && d in Neighbours(colCount, rowCount, c)
      requires Explored(colCount, rowCount, mines, c, start, drawn, visited)
      requires Revealed(colCount, rowCount, g0, rows, swept0, sweptCount, score0, score,
                        drawn + Region(colCount, rowCount, mines, visited - start))
      modifies this`rows, this`sweptCount, this`score
      decreases |AllCoords(colCount, rowCount) - visited| + 1, 0
      ensures Valid()
      ensures Explored(colCount, rowCount, mines, c, start, drawn + {d}, visited')
      ensures Revealed(colCount, rowCount, g0, rows, swept0, sweptCount, score0, score,
                       (drawn + {d}) + Region(colCount, rowCount, mines, visited' - start))
    {
      ghost var g1, swept1, score1 := rows, sweptCount, score;
      CleanedOverOne(rows, colCount, rowCount, d);
      CleanSquare(d);
      ghost var g2, swept2, score2 := rows, sweptCount, score;
      visited' := CleanFrom(visited, d);
      RevealedTrans(colCount, rowCount, g1, g2, rows, swept1, swept2, sweptCount, score1, score2, score,
                    {d}, Region(colCount, rowCount, mines, visited' - visited));
      ExploredStep(colCount, rowCount, mines, c, start, drawn, visited, d, visited');
      RevealStep(colCount, rowCount, mines, g0, g1, rows, swept0, swept1, sweptCount,
                 score0, score1, score, drawn, d, start, visited, visited');
    }

    /** clean's check whether any neighbour holds a mine (it stops at the first one). */
    method AnyMined(coords: seq<Coordinate>) returns (hasBomb: bool)
      requires Valid()
      requires forall k :: 0 <= k < |coords| ==> Contains(coords[k])
      ensures hasBomb <==> exists k :: 0 <= k < |coords| && coords[k] in mines
    {
      hasBomb := false;
      var k := 0;
      while k < |coords|
        invariant 0 <= k <= |coords|
        invariant !hasBomb
        invariant forall m :: 0 <= m < k ==> coords[m] !in mines
      {
        if Cell(rows, coords[k]).hasMine {
          hasBomb := true;
          break;
        }
        k := k + 1;
      }
    }

    /** Board.Clean: the reveal from `c` with a fresh visited set.  What it visits is the closure
        from `c`; exactly the neighbours of the expandable visited coordinates become cleaned,
        and each changed square adds 1 to SweptCount and 1 to Score (CleanRevealsSafely: never
        a mine, and the count is the number of squares newly cleaned). */
    method Clean(c: Coordinate) returns (ghost visited: set<Coordinate>)
      requires Valid() && Contains(c)
      modifies this`rows, this`sweptCount, this`score
      ensures Valid()
      ensures IsClosure(colCount, rowCount, mines, c, visited)
      ensures CleanedOver(old(rows), rows, colCount, rowCount, Region(colCount, rowCount, mines, visited))
      ensures sweptCount - old(sweptCount) == score - old(score) == GridCleaned(rows) - GridCleaned(old(rows))
    {
      visited := CleanFrom({}, c);
      assert visited - {} == visited;
    }

    /** The turn step of the game loop for a parsed command, with coordRecords as `records`.
        An off-board or already recorded coordinate is rejected with nothing changed;
        otherwise the turn has its TurnEffect, and it is lost exactly when it reveals a mine.
        A turn that is neither rejected nor lost is won exactly when IsWin then holds. */
    method Apply(coord: Coordinate, action: Action) returns (o: Outcome)
      requires Consistent()
      modifies this`rows, this`records, this`score, this`sweptCount, this`mineSweptCount
      ensures Consistent()
      ensures o != Malformed
      ensures o == OutOfBounds <==> !Contains(coord)
      ensures o == AlreadyRecorded <==> Contains(coord) && coord in old(records)
      ensures o in {OutOfBounds, AlreadyRecorded} ==>
        rows == old(rows) && records == old(records) && score == old(score)
        && sweptCount == old(sweptCount) && mineSweptCount == old(mineSweptCount)
      ensures Contains(coord) && coord !in old(records) ==>
        TurnEffect(colCount, rowCount, mines, coord, action, old(rows), rows, old(records), records,
                   old(score), score, old(sweptCount), sweptCount, old(mineSweptCount), mineSweptCount)
      ensures o == Lost <==> Contains(coord) && coord !in old(records) && action == Reveal && coord in mines
      ensures o in {Won, Continue} ==> (o == Won <==> IsWin())
    {
      if !Contains(coord) {
        return OutOfBounds;
      }
      if coord in records {
        return AlreadyRecorded;
      }
      if action == Reveal {
        var lost := Sweep(coord);
        if lost {
          return Lost;
        }
      } else if action == Mark {
        MarkSquare(coord);
      } else {
        SuspectSquare(coord);
      }
      if IsWin() {
        o := Won;
      } else {
        o := Continue;
      }
    }

    /** One pass of main.go's game loop on the line `input` the player typed: input the pattern
        does not match is rejected as Malformed with nothing changed; otherwise the parsed
        coordinate and action are Applied. */
    method Step(input: string) returns (o: Outcome)
      requires Consistent()
      modifies this`rows, this`records, this`score, this`sweptCount, this`mineSweptCount
      ensures Consistent()
      ensures o == Malformed <==> !MatchesPattern(input)
      ensures o == Malformed ==>
        rows == old(rows) && records == old(records) && score == old(score)
        && sweptCount == old(sweptCount) && mineSweptCount == old(mineSweptCount)
      ensures ParseInput(input).Some? ==>
        var cmd := ParseInput(input).value;
        var coord := Coordinate(cmd.x, cmd.y);
        && (o == OutOfBounds <==> !Contains(coord))
        && (o == AlreadyRecorded <==> Contains(coord) && coord in old(records))
        && (Contains(coord) && coord !in old(records) ==>
              TurnEffect(colCount, rowCount, mines, coord, cmd.action, old(rows), rows, old(records), records,
                         old(score), score, old(sweptCount), sweptCount, old(mineSweptCount), mineSweptCount))
        && (o == Lost <==> Contains(coord) && coord !in old(records) && cmd.action == Reveal && coord in mines)
      ensures o in {Won, Continue} ==> (o == Won <==> IsWin())
    {
      ParseAcceptsExactlyPattern(input);
      var parsed := ParseInput(input);
      if parsed.None? {
        return Malformed;
      }
      var cmd := parsed.value;
      o := Apply(Coordinate(cmd.x, cmd.y), cmd.action);
    }

    /** The `c` action on an unrecorded square: it is set to StatusCleaned; if it holds a mine
        it is then set to StatusBombed and the game is lost; otherwise it is recorded, scores 1,
        and Clean runs from it. */
    method Sweep(coord: Coordinate) returns (lost: bool)
      requires Consistent() && Contains(coord) && coord !in records
      modifies this`rows, this`records, this`score, this`sweptCount
      ensures Consistent()
      ensures lost <==> coord in mines
      ensures TurnEffect(colCount, rowCount, mines, coord, Reveal, old(rows), rows, old(records), records,
                         old(score), score, old(sweptCount), sweptCount, old(mineSweptCount), mineSweptCount)
    {
      rows := WithStatus(rows, coord, Cleaned);
      if Cell(rows, coord).hasMine {
        BombedEffect(old(rows), mines, colCount, rowCount, coord, score, sweptCount, mineSweptCount, records);
        rows := WithStatus(rows, coord, Bombed);
        ConsistentFrom();
        return true;
      }
      lost := false;
      SweepSafe(old(rows), coord);
    }

    /** The `c` action past the mine test: `coord` is recorded, scores 1, and Clean runs from it. */
    method SweepSafe(ghost g0: Grid, coord: Coordinate)
      requires Contains(coord) && coord !in mines && coord !in records
      requires Valid() && Shaped(g0, colCount, rowCount)
      requires LaidOut(g0, mines, colCount, rowCount)
      requires Counted(g0, mines, colCount, rowCount, score, sweptCount, mineSweptCount, records)
      requires rows == WithStatus(g0, coord, Cleaned)
      modifies this`rows, this`records, this`score, this`sweptCount
      ensures Consistent()
      ensures TurnEffect(colCount, rowCount, mines, coord, Reveal, g0, rows, old(records), records,
                         old(score), score, old(sweptCount), sweptCount, mineSweptCount, mineSweptCount)
    {
      records := records + {coord};
      score := score + 1;
      sweptCount := sweptCount + 1;
      ghost var visited := Clean(coord);
      SweptEffect(g0, old(rows), rows, mines, colCount, rowCount, coord, visited,
                  old(score), score, old(sweptCount), sweptCount, mineSweptCount, mineSweptCount,
                  old(records), records);
      ConsistentFrom();
    }

    /** The `m` action on an unrecorded square: it is set to StatusMarked, and only a mine adds
        1 to SweptCount and MineSweptCount and 2 to Score. */
    method MarkSquare(coord: Coordinate)
      requires Consistent() && Contains(coord) && coord !in records
      modifies this`rows, this`score, this`sweptCount, this`mineSweptCount
      ensures Consistent()
      ensures TurnEffect(colCount, rowCount, mines, coord, Mark, old(rows), rows, old(records), records,
                         old(score), score, old(sweptCount), sweptCount, old(mineSweptCount), mineSweptCount)
    {
      ghost var bonus := if coord in mines then 1 else 0;
      StatusEffect(rows, mines, colCount, rowCount, coord, Marked, score, sweptCount, mineSweptCount, records, bonus);
      rows := WithStatus(rows, coord, Marked);
      if Cell(rows, coord).hasMine {
        sweptCount := sweptCount + 1;
        mineSweptCount := mineSweptCount + 1;
        score := score + 2;
      }
      ConsistentFrom();
    }

    /** The `s` action on an unrecorded square: it is set to StatusSuspicious and nothing else
        changes. */
    method SuspectSquare(coord: Coordinate)
      requires Consistent() && Contains(coord) && coord !in records
      modifies this`rows
      ensures Consistent()
      ensures TurnEffect(colCount, rowCount, mines, coord, Suspect, old(rows), rows, old(records), records,
                         old(score), score, old(sweptCount), sweptCount, old(mineSweptCount), mineSweptCount)
    {
      StatusEffect(rows, mines, colCount, rowCount, coord, Suspicious, score, sweptCount, mineSweptCount, records, 0);
      rows := WithStatus(rows, coord, Suspicious);
      ConsistentFrom();
    }
  }

  /** NewBoard: a board of the size the difficulty's preset gives, laid out by Init from the
      injected draws.  When placement succeeds the game starts from a Consistent board with
      every counter at 0 and nothing recorded. */
  method NewBoard(d: Difficulty, draws: seq<Coordinate>) returns (b: Board, ok: bool)
    requires Accepted(d)
    requires forall k :: 0 <= k < |draws| ==> Geometry.Contains(BoardConfig(d).width, BoardConfig(d).height, draws[k])
    ensures fresh(b)
    ensures b.colCount == BoardConfig(d).width && b.rowCount == BoardConfig(d).height
    ensures b.mineCount == BoardConfig(d).mineCount
    ensures ok <==> b.mineCount <= |Elems(draws)|
    ensures ok ==> b.Consistent() && b.records == {} && b.score == 0 && b.sweptCount == 0 && b.mineSweptCount == 0
    ensures ok ==> |b.mines| == b.mineCount && !b.IsWin()
    ensures ok ==> exists n :: 0 < n <= |draws| && b.mines == Elems(draws[..n]) && |Elems(draws[..n - 1])| < b.mineCount
    ensures ok ==> forall c {:trigger Cell(b.rows, c)} :: b.Contains(c) ==>
      Cell(b.rows, c) == InitialSquare(b.colCount, b.rowCount, b.mines, c) && Cell(b.rows, c).status == Unswept
  {
    var config := BoardConfig(d);
    b := new Board(config);
    ok := b.Init(draws);
    if ok {
      FreshCounted(b.rows, b.mines, b.colCount, b.rowCount);
      b.ConsistentFrom();
    }
  }
}
