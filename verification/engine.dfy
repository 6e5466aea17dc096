/** onClickTV and checkWinCondition: the two-click cell state machine.
    A click on a hidden cell places a flag; a click on a flagged cell lifts
    the flag and then either loses the game (a mine) or reveals the cell
    and floods from it (a safe cell). */
module Engine {
  import opened Grid
  import opened Board
  import opened FloodFill

  /** The win condition: every safe square revealed or every bomb flagged. */
  predicate WinReached(g: Game) {
    g.revealedSafe == SafeCount || g.correctFlags == BombCount
  }

  /** checkWinCondition: ends the game as won when the win condition holds. */
  function CheckWin(g: Game): (r: Game)
    requires !g.Over()
    ensures r.cells == g.cells && r.mines == g.mines
    ensures r.revealedSafe == g.revealedSafe && r.correctFlags == g.correctFlags
    ensures r.remainingFlags == g.remainingFlags
    ensures r.status == Won <==> WinReached(g)
    ensures r.status != Lost
  {
    if WinReached(g) then g.(status := Won) else g
  }

  /** The branch of onClickTV for an untagged cell with a flag in hand. */
  function PlaceFlag(g: Game, n: int): (r: Game)
    requires WellFormed(g) && ValidIndex(n) && !g.Over()
    requires g.cells[n] == Hidden && g.remainingFlags > 0
    ensures WellFormed(r) && r.mines == g.mines
    ensures r.cells[n] == Flagged
    ensures forall i | 0 <= i < CellCount && i != n :: r.cells[i] == g.cells[i]
    ensures r.remainingFlags == g.remainingFlags - 1
    ensures r.correctFlags == g.correctFlags + 1 <==> n in g.mines
    ensures n !in g.mines ==> r.correctFlags == g.correctFlags
    ensures r.revealedSafe == g.revealedSafe
    ensures r.status == Won <==> WinReached(r)
    ensures r.status != Lost
  {
    CheckWin(g.(cells := g.cells[n := Flagged],
                remainingFlags := g.remainingFlags - 1,
                correctFlags := if n in g.mines then g.correctFlags + 1 else g.correctFlags))
  }

  /** The branch of onClickTV for a flagged cell: the flag goes back to the
      player (never beyond BombCount); a mine then ends the game as lost
      without revealing anything, a safe cell is revealed with flood fill
      and the win condition is checked. */
  function LiftFlag(g: Game, n: int): (r: Game)
    requires WellFormed(g) && ValidIndex(n) && !g.Over()
    requires g.cells[n] == Flagged
    ensures WellFormed(r) && r.mines == g.mines
    ensures r.remainingFlags == if g.remainingFlags < BombCount then g.remainingFlags + 1 else BombCount
    ensures n in g.mines ==>
      && r.status == Lost
      && r.cells[n] == Unflagged
      && (forall i | 0 <= i < CellCount && i != n :: r.cells[i] == g.cells[i])
      && r.revealedSafe == g.revealedSafe
    ensures n !in g.mines ==>
      && r.cells[n] == Revealed(MineCount(g.mines, n))
      && OnlyNewlyRevealed(g, r)
      && RevealedCells(g.cells) < RevealedCells(r.cells)
      && r.revealedSafe - g.revealedSafe == |RevealedCells(r.cells)| - |RevealedCells(g.cells)|
      && r.correctFlags == g.correctFlags
      && (r.status == Won <==> WinReached(r))
      && r.status != Lost
  {
    var flags := if g.remainingFlags + 1 > BombCount then BombCount else g.remainingFlags + 1;
    var correct := if n in g.mines && g.correctFlags > 0 then g.correctFlags - 1 else g.correctFlags;
    var g1 := g.(cells := g.cells[n := Unflagged], remainingFlags := flags, correctFlags := correct);
    if n in g.mines then
      g1.(status := Lost)
    else
      var g2 := Reveal(g1, n);
      assert n in RevealedCells(g2.cells) && n !in RevealedCells(g.cells);
      assert RevealedCells(g1.cells) == RevealedCells(g.cells);
      CheckWin(g2)
  }

  /** onClickTV on the cell with index `n`. */
  function Click(g: Game, n: int): (r: Game)
    requires WellFormed(g) && ValidIndex(n)
    ensures WellFormed(r) && r.mines == g.mines
    ensures g.Over() ==> r == g
    ensures g.cells[n].Revealed? || g.cells[n] == Unflagged ==> r == g
    ensures g.cells[n] == Hidden && g.remainingFlags <= 0 ==> r == g
  {
    if g.Over() then g
    else
      match g.cells[n]
      case Revealed(_) => g
      case Unflagged => g
      case Hidden => if g.remainingFlags > 0 then PlaceFlag(g, n) else g
      case Flagged => LiftFlag(g, n)
  }
}
