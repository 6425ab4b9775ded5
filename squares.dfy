/** One square of the board: its mine flag, its count of mined neighbours and its status (board.go). */
module Squares {
  import opened Decimal

  datatype Status = Unswept | Cleaned | Marked | Suspicious | Bombed

  /** `num` is the number of mines around the square, fixed when the board is laid out. */
  datatype Square = Square(num: int, hasMine: bool, status: Status)

  const UnsweptSymbol: string := "\U{25A0}"
  const MarkedSymbol: string := "\U{25B3}"
  const SuspiciousSymbol: string := "?"
  const BombedSymbol: string := "@"
  const MineSymbol: string := "*"

  /** Square.Display: the text shown for a square.  A cleaned square shows its count, or nothing
      when the count is 0.  In debug mode every square shows `*` if it holds a mine and its
      count otherwise, whatever its status. */
  function Display(s: Square, debug: bool): (r: string)
    ensures debug ==> (r == MineSymbol <==> s.hasMine)
    ensures !debug && s.status != Cleaned ==> |r| == 1 && !IsDigit(r[0])
    ensures !debug && s.status == Cleaned && s.num >= 0 ==> AllDigits(r) && (r == "" <==> s.num == 0)
    ensures !debug && s.status == Cleaned && s.num > 0 ==> r == NatToDecimal(s.num) && Value(r) == s.num
    ensures debug && !s.hasMine && s.num >= 0 ==> r == NatToDecimal(s.num) && Value(r) == s.num
    ensures !debug && s.status == Unswept ==> r == "\U{25A0}"
    ensures !debug && s.status == Marked ==> r == "\U{25B3}"
    ensures !debug && s.status == Suspicious ==> r == "?"
    ensures !debug && s.status == Bombed ==> r == "@"
  {
    assert s.num >= 0 ==> Value(NatToDecimal(s.num)) == s.num by {
      if s.num >= 0 { ValueOfDecimal(s.num); }
    }
    var symbol := match s.status
      case Unswept => UnsweptSymbol
      case Cleaned => if s.num > 0 then Itoa(s.num) else ""
      case Marked => MarkedSymbol
      case Suspicious => SuspiciousSymbol
      case Bombed => BombedSymbol;
    if debug then
      (if s.hasMine then MineSymbol else Itoa(s.num))
    else
      symbol
  }

  /** Without debug, the text shown determines the status, and for a cleaned square its count,
      so the player can read the board back from the screen. */
  lemma DisplayDeterminesStatus(s: Square, t: Square)
    requires s.num >= 0 && t.num >= 0
    requires Display(s, false) == Display(t, false)
    ensures s.status == t.status
    ensures s.status == Cleaned ==> s.num == t.num
  {
    if s.status == Cleaned && t.status == Cleaned && s.num > 0 && t.num > 0 {
      DecimalInjective(s.num, t.num);
    }
  }

  /** In debug mode the status is not shown at all. */
  lemma DebugDisplayIgnoresStatus(s: Square, st: Status)
    ensures Display(s.(status := st), true) == Display(s, true)
  {
  }
}
