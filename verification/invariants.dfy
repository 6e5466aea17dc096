/** The bookkeeping invariant of the board holds in the initial state and is
    kept by every click, so it holds in every state a sequence of clicks can
    reach. */
module Invariants {
  import opened Grid
  import opened Board
  import opened FloodFill
  import opened Engine

  /** Placing a flag on a hidden cell adds exactly that cell to the flagged
      ones and leaves the revealed ones alone. */
  lemma PlaceFlagCells(g: Game, n: int)
    requires WellFormed(g) && ValidIndex(n) && !g.Over()
    requires g.cells[n] == Hidden && g.remainingFlags > 0
    ensures RevealedCells(PlaceFlag(g, n).cells) == RevealedCells(g.cells)
    ensures FlaggedCells(PlaceFlag(g, n).cells) == FlaggedCells(g.cells) + {n}
    ensures n !in FlaggedCells(g.cells)
    ensures UnflaggedCells(PlaceFlag(g, n).cells) == UnflaggedCells(g.cells)
  {
  }

  lemma PlaceFlagPreservesInv(g: Game, n: int)
    requires Inv(g) && ValidIndex(n) && !g.Over()
    requires g.cells[n] == Hidden && g.remainingFlags > 0
    ensures Inv(PlaceFlag(g, n))
  {
    PlaceFlagCells(g, n);
    PlaceFlagCounters(g, n);
    PlaceFlagBoard(g, n);
  }

  /** After a flag is placed the counters still agree with the cells. */
  lemma PlaceFlagCounters(g: Game, n: int)
    requires Inv(g) && ValidIndex(n) && !g.Over()
    requires g.cells[n] == Hidden && g.remainingFlags > 0
    ensures CountersAgree(PlaceFlag(g, n))
  {
    PlaceFlagCells(g, n);
    FlaggedMines(g.cells, g.mines, n);
  }

  /** Flagging hidden cell `n` adds it to the flagged mines exactly when it
      is a mine. */
  lemma FlaggedMines(cells: seq<Cell>, mines: set<int>, n: int)
    requires |cells| == CellCount && ValidIndex(n) && cells[n] == Hidden
    ensures FlaggedCells(cells[n := Flagged]) * mines
      == FlaggedCells(cells) * mines + (if n in mines then {n} else {})
    ensures n !in FlaggedCells(cells) * mines
  {
  }

  /** Placing a flag reveals nothing, so revealed cells stay safe and
      correctly numbered and the board stays closed. */
  lemma PlaceFlagBoard(g: Game, n: int)
    requires Inv(g) && ValidIndex(n) && !g.Over()
    requires g.cells[n] == Hidden && g.remainingFlags > 0
    ensures RevealedSafe(PlaceFlag(g, n)) && Closed(PlaceFlag(g, n), {})
  {
    var r := PlaceFlag(g, n);
    assert RevealedSafe(r);
    assert Closed(r, {});
  }

  /** The cap on returned flags never applies, and a flagged mine is always
      among the correctly flagged bombs, so both guards of the unflag
      branch are always passed. */
  lemma LiftFlagGuards(g: Game, n: int)
    requires Inv(g) && ValidIndex(n) && !g.Over() && g.cells[n] == Flagged
    ensures g.remainingFlags + 1 <= BombCount
    ensures n in g.mines ==> g.correctFlags > 0
    ensures LiftFlag(g, n).remainingFlags == g.remainingFlags + 1
    ensures n in g.mines ==> LiftFlag(g, n).correctFlags == g.correctFlags - 1
  {
    var f := FlaggedCells(g.cells);
    assert n in f;
    SubsetCardinality({n}, f);
    if n in g.mines {
      assert n in f * g.mines;
      SubsetCardinality({n}, f * g.mines);
    }
  }

  lemma LiftMinePreservesInv(g: Game, n: int)
    requires Inv(g) && ValidIndex(n) && !g.Over() && g.cells[n] == Flagged
    requires n in g.mines
    ensures Inv(LiftFlag(g, n))
  {
    var r := LiftFlag(g, n);
    LiftFlagGuards(g, n);
    var f := FlaggedCells(g.cells);
    assert n in f;
    assert RevealedCells(r.cells) == RevealedCells(g.cells);
    assert FlaggedCells(r.cells) == f - {n};
    assert FlaggedCells(r.cells) * g.mines == f * g.mines - {n};
    assert n in f * g.mines;
    assert UnflaggedCells(g.cells) == {};
    assert UnflaggedCells(r.cells) == {n};
    assert RevealedSafe(r);
    assert Closed(r, {});
  }

  /** Lifting the flag from a safe cell: the flood fill only turns cells
      into revealed ones, so the flags it swallows are safe cells and the
      correctly flagged bombs are untouched. */
  lemma LiftSafeFlagged(g: Game, n: int)
    requires Inv(g) && ValidIndex(n) && !g.Over() && g.cells[n] == Flagged
    requires n !in g.mines
    ensures FlaggedCells(LiftFlag(g, n).cells) <= FlaggedCells(g.cells) - {n}
    ensures FlaggedCells(LiftFlag(g, n).cells) * g.mines == FlaggedCells(g.cells) * g.mines
    ensures UnflaggedCells(LiftFlag(g, n).cells) == {}
  {
    var r := LiftFlag(g, n);
    assert UnflaggedCells(g.cells) == {};
    forall i | i in FlaggedCells(r.cells)
      ensures i in FlaggedCells(g.cells) - {n}
    {
      assert r.cells[i] == g.cells[i];
    }
    forall i | i in FlaggedCells(g.cells) * g.mines
      ensures i in FlaggedCells(r.cells)
    {
      assert r.cells[i] == g.cells[i];
    }
    forall i | 0 <= i < CellCount
      ensures r.cells[i] != Unflagged
    {
      if r.cells[i] == g.cells[i] {
        assert i !in UnflaggedCells(g.cells);
      }
    }
  }

  lemma LiftSafePreservesInv(g: Game, n: int)
    requires Inv(g) && ValidIndex(n) && !g.Over() && g.cells[n] == Flagged
    requires n !in g.mines
    ensures Inv(LiftFlag(g, n))
  {
    var r := LiftFlag(g, n);
    LiftFlagGuards(g, n);
    LiftSafeFlagged(g, n);
    var f := FlaggedCells(g.cells);
    assert n in f;
    SubsetCardinality(FlaggedCells(r.cells), f - {n});
    SubsetCardinality(RevealedCells(g.cells), RevealedCells(r.cells));
    assert RevealedSafe(r) by {
      forall i | 0 <= i < CellCount && r.cells[i].Revealed?
        ensures i !in r.mines && r.cells[i].count == MineCount(r.mines, i)
      {
        if r.cells[i] == g.cells[i] {
          assert g.cells[i].Revealed?;
        }
      }
    }
    LiftSafeClosed(g, n);
  }

  /** The flood fill started by lifting a safe flag leaves a closed board. */
  lemma LiftSafeClosed(g: Game, n: int)
    requires WellFormed(g) && Closed(g, {}) && ValidIndex(n) && !g.Over() && g.cells[n] == Flagged
    requires n !in g.mines
    ensures Closed(LiftFlag(g, n), {})
  {
    var g1 := LiftSafeIsReveal(g, n);
    UnflagKeepsClosed(g, g1, n);
    RevealKeepsClosed(g1, n, {});
  }

  /** Lifting the flag from a safe cell on a closed board changes exactly
      the cells of its flood region: the cell itself, the connected cells
      with no neighbouring mine, and the numbered cells bordering them. */
  lemma LiftFlagRegion(g: Game, n: int, m: int)
    requires WellFormed(g) && Closed(g, {}) && ValidIndex(n) && ValidIndex(m)
    requires !g.Over() && g.cells[n] == Flagged && n !in g.mines
    ensures LiftFlag(g, n).cells[m] != g.cells[m] <==> Reaches(g, n, m)
  {
    var g1 := LiftSafeIsReveal(g, n);
    UnflagKeepsClosed(g, g1, n);
    FloodFillRegion(g1, n);
    SameRegion(g, g1, n, m);
    if m == n {
      assert ZeroPath(g, [n]);
    }
  }

  /** Lifting a safe flag is revealing the cell of a board that differs
      from `g` only in the tag-2 mark on that cell. */
  lemma LiftSafeIsReveal(g: Game, n: int) returns (g1: Game)
    requires WellFormed(g) && ValidIndex(n) && !g.Over() && g.cells[n] == Flagged && n !in g.mines
    ensures WellFormed(g1) && g1.mines == g.mines && g1.cells == g.cells[n := Unflagged]
    ensures RevealedCells(g1.cells) == RevealedCells(g.cells)
    ensures LiftFlag(g, n).cells == Reveal(g1, n).cells
  {
    var flags := if g.remainingFlags + 1 > BombCount then BombCount else g.remainingFlags + 1;
    g1 := g.(cells := g.cells[n := Unflagged], remainingFlags := flags);
    UnflagKeepsRevealed(g.cells, n);
    assert LiftFlag(g, n) == CheckWin(Reveal(g1, n));
  }

  /** Tagging an unrevealed cell leaves the revealed cells as they are. */
  lemma UnflagKeepsRevealed(cells: seq<Cell>, n: int)
    requires |cells| == CellCount && ValidIndex(n) && !cells[n].Revealed?
    ensures RevealedCells(cells[n := Unflagged]) == RevealedCells(cells)
  {
    assert forall i | i in RevealedCells(cells) :: i != n;
  }

  /** Boards with the same mines and the same revealed cells have the same
      flood regions. */
  lemma SameRegion(h: Game, h1: Game, n: int, m: int)
    requires WellFormed(h) && WellFormed(h1) && h1.mines == h.mines
    requires RevealedCells(h.cells) == RevealedCells(h1.cells)
    ensures Reaches(h, n, m) <==> Reaches(h1, n, m)
  {
    if Reaches(h, n, m) {
      var p :| ZeroPath(h, p) && p[0] == n && p[|p| - 1] == m;
      ZeroPathWeaken(h1, h, p);
    }
    if Reaches(h1, n, m) {
      var p :| ZeroPath(h1, p) && p[0] == n && p[|p| - 1] == m;
      ZeroPathWeaken(h, h1, p);
    }
  }

  lemma UnflagKeepsClosed(g: Game, g1: Game, n: int)
    requires WellFormed(g) && Closed(g, {}) && ValidIndex(n) && !g.cells[n].Revealed?
    requires g1.cells == g.cells[n := Unflagged] && g1.mines == g.mines
    ensures Closed(g1, {})
  {
  }

  /** onClickTV keeps the invariant. */
  lemma ClickPreservesInv(g: Game, n: int)
    requires Inv(g) && ValidIndex(n)
    ensures Inv(Click(g, n))
  {
    if !g.Over() {
      match g.cells[n]
      case Hidden =>
        if g.remainingFlags > 0 {
          PlaceFlagPreservesInv(g, n);
        }
      case Flagged =>
        if n in g.mines {
          LiftMinePreservesInv(g, n);
        } else {
          LiftSafePreservesInv(g, n);
        }
      case _ =>
    }
  }
}
