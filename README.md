# Minesweeper board engine in Dafny

A verified model of the board engine of a terminal minesweeper written in Go (`board.go`) and of
the turn step its game loop applies to the board (`main.go`).

- `Geometry`: a coordinate, the bounds test `Contains`, and `GetSurroundingCoordinates`. The
  latter keeps its two nested offset loops and is proved to return every in-bounds neighbour
  exactly once, in scan order.
- `Squares`: square statuses and `Square.Display`, with and without the debug override.
- `Grids`: the board's `Rows` as a value (a sequence of rows of squares). It covers setting one
  square's status, the layout of mines and counts, and the count of cleaned squares.
- `FloodFill`: the value-level meaning of the recursive reveal. A visited set is closed when it
  holds every neighbour of each member none of whose neighbours is mined. What the reveal
  cleans is the set of neighbours of such members, which never holds a mine.
- `Boards`: the `Board` class. Its fields are the counters, `Rows` and the game loop's
  `coordRecords` (field `records`), plus a ghost field `mines` for the mine set.
  - `Init` keeps its placement retry loop and its nested fill loop.
  - `Clean`/`clean` keep the recursion over the shared visited set and the loop over the
    neighbours.
  - `Apply` is main.go's turn step for a parsed coordinate and action.
  - `Step` adds the input pattern in front of `Apply`.
  - `NewBoard` builds a board from a difficulty preset.
  - Every turn keeps `Consistent`:
    - the board is laid out from its mines;
    - the score is the swept count plus the mine-swept count;
    - the swept count covers every cleaned square plus every marked mine;
    - no cleaned square holds a mine;
    - every recorded coordinate is on the board and cleaned.
  - `TurnEffect` states each action's whole effect exactly.
- `Settings`: the difficulty presets, the difficulty names and the 1..3 range check.
- `Commands`: the input pattern `^(\d{1,2}),(\d{1,2}),([mcs])` as a hand-written parser. It is
  proved to accept exactly what the pattern matches.
- `Decimal`: the decimal text that `strconv.Itoa` writes and `strconv.Atoi` reads.

The random generator is injected: `Init` takes the sequence of coordinates the generator would
yield. The source's placement loop never ends when those coordinates do not hold `MineCount`
distinct ones. Here `Init` then reports failure and leaves the board as it was.

Two consequences of the code that the model keeps:
- Only revealed coordinates are recorded. Marking the same mine again counts again, and a square
  the flood fill cleaned can still be revealed, which counts again.
- `IsWin` compares counters only. Because of the two repeats above, it can hold before every
  safe square is cleaned.

## Model

| member | source | states |
|---|---|---|
| Geometry.GetSurroundingCoordinates | board.go:20-41 | every returned coordinate is an in-bounds neighbour of `c` (not `c`, at most 1 away on each axis); every such neighbour is returned; the list is in scan order, free of repeats, and at most 8 long |
| Geometry.ScanColumn | board.go:22-38 | one pass of the inner offset loop extends the scan by the three offsets of its column |
| Geometry.ScanNext | board.go:23-37 | one inner step appends the offset's cell exactly when it is not the centre and is in bounds, keeping the scan exact |
| Geometry.Contains | board.go:208-213 | Board.Contains: the coordinate lies inside both bounds (its meaning as membership is ContainsIsMembership) |
| Geometry.ContainsIsMembership | board.go:208-213 | the bounds test holds exactly for the coordinates of the board |
| Geometry.AllCoordsSize | board.go:251 | a board has exactly RowCount*ColCount coordinates, the target of IsWin's swept count |
| Squares.Display | board.go:66-92 | in debug mode the text is `*` exactly for a mine, and for a safe square the shortest decimal of its count (`0` included); otherwise Unswept, Marked, Suspicious and Bombed show `■`, `△`, `?` and `@`, and a cleaned square shows the shortest decimal of its count, or nothing when that count is 0 |
| Squares.DisplayDeterminesStatus | board.go:68-83 | without debug, equal texts mean equal statuses, and for cleaned squares equal counts |
| Squares.DebugDisplayIgnoresStatus | board.go:84-90 | in debug mode the status does not affect the text |
| Decimal.NatToDecimal | board.go:73 | the decimal text is non-empty and all digits, one digit below 10 and two below 100 |
| Decimal.ValueOfDecimal | main.go:91-92 | reading back the decimal text of n gives n |
| Decimal.DecimalInjective | board.go:72-73 | different counts show different texts |
| Settings.BoardConfig | main.go:35-39 | exactly the difficulties 1..3 have presets; each preset has 1 <= MineCount < Width*Height; other difficulties get the zero config |
| Settings.Accepted | main.go:55 | the range check passes exactly the three named difficulties |
| Settings.DifficultyName | main.go:14-25 | the name is non-empty exactly for an accepted difficulty |
| Settings.DifficultyNamesDistinct | main.go:14-25 | the three names differ from each other |
| Commands.GroupLength | main.go:70 | a reported group is one or two digits followed by a comma; a two-digit group followed by a comma is always found whole, and a one-digit one is never missed |
| Commands.ActionOf | main.go:104-127 | the step's dispatch: `c` reveals, `m` marks, anything else suspects (ActionChar is its inverse on actions) |
| Commands.ActionChar | main.go:104-127 | each action has a letter of `[mcs]` that the step dispatches back to that action |
| Commands.ParseInput | main.go:86-93 | a parsed command has both coordinates below 100 |
| Commands.ParseFollowsPattern | main.go:89-92 | whenever the pattern matches, the parse yields the values of its two digit groups and its action letter |
| Commands.ParseAcceptsExactlyPattern | main.go:86-89 | the parser accepts exactly the inputs the pattern matches |
| Commands.ParseRender | main.go:70 | every command with coordinates below 100 can be typed, and trailing text is ignored |
| Grids.WithStatus | main.go:102-105 | setting one square's status changes only that square's status |
| Grids.CleanedAfterSet | board.go:239-240 | setting a status adds the square to, or removes it from, the cleaned squares and no other |
| Grids.CleanedShrinks | main.go:117-127 | marking or suspecting a square can only remove it from the cleaned squares |
| Grids.StatusOverwrite | main.go:105-107 | setting Cleaned then Bombed leaves only Bombed |
| Grids.LaidOutAfterSet | main.go:102-127 | no status change alters mines or counts |
| Grids.CleanedOverTrans | board.go:236-245 | cleaning one set after another cleans their union |
| Grids.CleanedOverLaidOut | board.go:237-243 | cleaning squares keeps mines and counts |
| Grids.GridCleanedAfterSet | board.go:239-243 | a status change moves the count of cleaned squares by that square alone |
| Grids.GridCleanedIsSize | board.go:239-242 | the cleaned count kept row by row is the number of cleaned squares |
| FloodFill.RegionSafe | board.go:228-243 | the reveal never cleans a mine and stays on the board |
| FloodFill.RegionBorder | board.go:236-244 | every square the reveal cleans lies next to a visited square none of whose neighbours is mined |
| FloodFill.RegionUnion | board.go:237-245 | what is cleaned from a union of visited sets is the union of what is cleaned from each |
| FloodFill.RegionOfOne | board.go:236-245 | from one coordinate the reveal cleans all its neighbours when none is mined, and nothing otherwise |
| FloodFill.RegionInsideClosed | board.go:244 | every square cleaned from a closed visited set was itself visited |
| FloodFill.LeastStep | board.go:244 | what lies in every closed set that holds a neighbour lies in every closed set that holds the expanded coordinate |
| Boards.ElemsSize | board.go:150-154 | a list of coordinates holds at most as many distinct ones as its length, and exactly that many when it has no repeats |
| Boards.CountStep | board.go:151-155 | each neighbour in the mine set adds one to the count, and any other neighbour adds none |
| Boards.CountAll | board.go:151-155 | counting the listed neighbours gives the number of mined neighbours |
| Boards.ExploredStep | board.go:237-245 | the expansion loop's knowledge of the visited set carries over one more neighbour |
| Boards.RevealedTrans | board.go:237-245 | clean's reveals compose, and the counters rise by the sum |
| Boards.RevealStep | board.go:238-244 | cleaning one neighbour and revealing from it extends what the loop has revealed |
| Boards.FreshCounted | board.go:121-158 | a freshly laid-out board, all squares unswept, is Counted with zero counters and no records |
| Boards.RevealCounted | main.go:104-115 | revealing a safe square, recording it, scoring 1 and cleaning from it keeps the counters Counted |
| Boards.StatusCounted | main.go:117-127 | marking (with the bonus for a mine) or suspecting keeps the counters Counted |
| Boards.ChangedCount | board.go:239-243 | the swept count rises by the number of squares newly cleaned apart from the revealed one |
| Boards.TurnScoreRises | main.go:104-127 | in every accepted turn, score, swept count and mine-swept count do not decrease, and records only grow |
| Boards.BombedEffect | main.go:104-110 | revealing a mine sets it Bombed and changes no counter or record |
| Boards.SweptEffect | main.go:104-115 | revealing a safe square has the reveal's TurnEffect and keeps the board Consistent |
| Boards.StatusEffect | main.go:117-127 | marking or suspecting keeps the layout and the counters Counted |
| Boards.CleanRevealsSafely | board.go:216-247 | Clean only adds cleaned squares, none of them a mine, and the counters rise by the number it cleaned |
| Boards.RevealCount | board.go:236-243 | cleaning a mine-free set only adds cleaned squares, and the count rises by the number added |
| Boards.RowsLaidOutSnoc | board.go:143-157 | the fill loop keeps every finished row laid out |
| Boards.RowsLaidOutCells | board.go:141-158 | with all rows laid out, every square is Init's square for its coordinate |
| Boards.Board.constructor | board.go:110-116 | the new board has the preset's width, height and mine count and zero counters |
| Boards.Board.Contains | board.go:208-213 | the board's bounds test for its own ColCount and RowCount |
| Boards.Board.IsWin | board.go:250-252 | the win test on the counters: every square swept and every mine marked (WinScore gives the score it implies) |
| Boards.Board.WinScore | board.go:250-252 | a won consistent board has a score of RowCount*ColCount plus MineCount |
| Boards.Board.PlaceMines | board.go:127-139 | placement succeeds exactly when 1 <= MineCount and the draws hold that many distinct coordinates; it then yields MineCount distinct coordinates, taken from the shortest prefix of the draws that holds that many |
| Boards.Board.LayOutSquare | board.go:145-155 | a square holds a mine exactly when its coordinate was drawn, and counts its drawn neighbours, between 0 and 8 |
| Boards.Board.LayOutRow | board.go:143-156 | a row has ColCount squares, each laid out from the mine set |
| Boards.Board.LayOut | board.go:141-158 | Rows has RowCount rows of ColCount squares, each laid out from the mine set |
| Boards.Board.Init | board.go:121-159 | on success the board holds exactly the placed mines, every square unswept and counting its mined neighbours (0..8); on failure nothing changes |
| Boards.Board.CleanSquare | board.go:239-243 | a square not yet cleaned becomes cleaned and adds 1 to SweptCount and Score; a cleaned one is left alone |
| Boards.Board.CleanFrom | board.go:222-247 | the coordinates clean adds to the visited set hold `c`, lie in every closed set holding `c`, and have the neighbours of each expandable one in the new visited set; exactly their reveal region becomes cleaned; the counters rise by the number of squares that changed; a visited `c` is not expanded again |
| Boards.Board.ExpandFrom | board.go:237-245 | the expansion loop cleans every neighbour and what is revealed from each, over the shared visited set |
| Boards.Board.VisitNeighbour | board.go:238-244 | one pass of the expansion loop extends both the visited closure and the reveal |
| Boards.Board.AnyMined | board.go:228-235 | the mine test is true exactly when some listed neighbour holds a mine |
| Boards.Board.Clean | board.go:216-219 | Clean visits the closure from `c`, cleans exactly its reveal region, and adds 1 to SweptCount and Score per changed square |
| Boards.Board.Apply | main.go:94-137 | an off-board or recorded coordinate is rejected with nothing changed; otherwise the turn has its TurnEffect; it is lost exactly on revealing a mine; otherwise it is won exactly when IsWin holds; the board stays Consistent |
| Boards.Board.Step | main.go:86-137 | input the pattern does not match is Malformed with nothing changed; otherwise the parsed coordinate and action are Applied |
| Boards.Board.Sweep | main.go:104-115 | `c` on a mine sets it Bombed and is lost; on a safe square it has the reveal's TurnEffect |
| Boards.Board.SweepSafe | main.go:112-115 | a safe reveal records the coordinate, scores 1, cleans from it, and keeps the board Consistent |
| Boards.Board.MarkSquare | main.go:117-123 | `m` sets Marked, and only a mine adds 1 to SweptCount and MineSweptCount and 2 to Score |
| Boards.Board.SuspectSquare | main.go:125-127 | `s` sets Suspicious and changes no counter or record |
| Boards.NewBoard | board.go:110-118 | the board has the preset's dimensions; on success its mines are the shortest prefix of the draws holding MineCount distinct coordinates, every square is Unswept with its mine flag and count laid out from them, and the board is Consistent, with zero counters, no records, and not yet won |

## Left out

- Terminal I/O is not modelled: reading lines, printing, clearing the screen, and printing the debug counters. `Step` takes the typed line as a parameter and returns an `Outcome`.
- The table rendering of the whole board (`Board.Display`, `getSeparationLine`) is not modelled. It builds structures of a foreign table library and is pure presentation.
- The random generator and its wall-clock seed are not modelled. Their draws are the `draws` parameter of `Init` and `NewBoard`.
- `Coordinate.String` is not modelled. Its only use is as map keys, and the maps are modelled as sets of coordinates.
- The regular-expression engine is not modelled. The one pattern is a hand-written parser, proved to accept exactly that pattern.
- Init: when the draws run out before MineCount distinct coordinates are found, `ok` is false and the board is unchanged. The source loops forever in that case, and with MineCount 0 always.
- NewBoard: requires an accepted difficulty. The source reaches it only after the 1..3 check, and for any other difficulty `r.Intn(0)` panics.
- `Scanln` errors are not modelled. They are I/O errors on reading a line.
- The game loop's repetition and its `break`/`return` are not modelled. `Apply` reports `Lost` or `Won`, and a caller would stop on either.
- Board.Debug is not modelled as a field. It is the `debug` parameter of `Display`.
